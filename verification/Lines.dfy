/**
 The assembly of single scan lines: the distance between matching lines is searched and
 filtered, and the lines are resampled to even spacing in 16.16 fixed point.
 */
module Lines {
  import opened Bytes
  import opened Products
  import Median

  datatype Context = Context(width: nat, maxHeight: nat, resolution: nat, filterSize: nat, maxOffset: nat)

  const ONE: nat := 0x1_0000

  // ----- the search for matching lines --------------------------------------------------

  function Min(a: int, b: int): int { if a < b then a else b }

  /** The last line compared with line i. */
  function LastRow(ctx: Context, num: nat, i: nat): int { Min(i + ctx.maxOffset, num - 1) }

  /** The lines compared with line i: those after it, up to the largest offset, among the lines given. */
  lemma LastRowExactly(ctx: Context, num: nat, i: nat, j: nat)
    requires i < num
    ensures i < j <= LastRow(ctx, num, i) <==> i < j < num && j - i <= ctx.maxOffset
  {
  }

  /** The line at this offset deviates least from line i, and is the first that does. */
  ghost predicate BestMatch(dev: (nat, nat) -> int, i: nat, last: int, offset: int) {
    1 <= offset && i + offset <= last &&
    forall j | i < j <= last ::
      dev(i, i + offset) <= dev(i, j) && (j < i + offset ==> dev(i, i + offset) < dev(i, j))
  }

  method FindOffset(ctx: Context, num: nat, dev: (nat, nat) -> int, i: nat) returns (offset: nat)
    requires i < num - 1
    ensures ctx.maxOffset == 0 ==> offset == 0
    ensures ctx.maxOffset > 0 ==> BestMatch(dev, i, LastRow(ctx, num, i), offset)
  {
    var bestmatch, bestdiff := i, 0;
    var firstrow, lastrow := i + 1, LastRow(ctx, num, i);
    var j := firstrow;
    while j <= lastrow
      invariant firstrow <= j && (j <= lastrow + 1 || j == firstrow)
      invariant j == firstrow ==> bestmatch == i
      invariant j > firstrow ==> BestMatch(dev, i, j - 1, bestmatch - i) && bestdiff == dev(i, bestmatch)
      invariant i <= bestmatch
    {
      var diff := dev(i, j);
      if j == firstrow || diff < bestdiff {
        bestdiff, bestmatch := diff, j;
      }
      j := j + 1;
    }
    offset := bestmatch - i;
  }

  /** The offsets a search may give: none without lines to search, else 1 to the maximum. */
  predicate OffsetOk(ctx: Context, offset: int) {
    if ctx.maxOffset == 0 then offset == 0 else 1 <= offset <= ctx.maxOffset
  }

  predicate OffsetsOk(ctx: Context, offsets: seq<int>) {
    forall k | 0 <= k < |offsets| :: OffsetOk(ctx, offsets[k])
  }

  ghost predicate Searched(ctx: Context, num: nat, dev: (nat, nat) -> int, offsets: seq<int>) {
    |offsets| == num / 2 &&
    forall k | 0 <= k < |offsets| :: ctx.maxOffset > 0 ==> BestMatch(dev, 2 * k, LastRow(ctx, num, 2 * k), offsets[k])
  }

  method SearchOffsets(ctx: Context, num: nat, dev: (nat, nat) -> int) returns (offsets: array<int>)
    requires num >= 2
    ensures fresh(offsets) && Searched(ctx, num, dev, offsets[..]) && OffsetsOk(ctx, offsets[..])
  {
    offsets := new int[num / 2](_ => 0);
    var i := 0;
    while i < num - 1
      invariant i % 2 == 0 && i <= num && i / 2 <= offsets.Length
      invariant forall k | 0 <= k < i / 2 :: OffsetOk(ctx, offsets[k])
      invariant forall k | 0 <= k < i / 2 ::
                  ctx.maxOffset > 0 ==> BestMatch(dev, 2 * k, LastRow(ctx, num, 2 * k), offsets[k])
    {
      offsets[i / 2] := FindOffset(ctx, num, dev, i);
      assert 2 * (i / 2) == i;
      i := i + 2;
    }
  }

  /** The offsets used for the assembly: all but the last filtered. */
  ghost predicate Filtered(ctx: Context, raw: seq<int>, offsets: seq<int>) {
    |offsets| == |raw| > 0 && offsets[|raw| - 1] == raw[|raw| - 1] &&
    Median.AllMedians(raw[..|raw| - 1], ctx.filterSize, offsets[..|raw| - 1])
  }

  /** The filter's sort buffer is overrun exactly for a filter size of 0 and at least four lines. */
  method Offsets(ctx: Context, num: nat, dev: (nat, nat) -> int)
    returns (offsets: seq<int>, overrun: bool, ghost raw: seq<int>)
    requires num >= 2
    ensures Searched(ctx, num, dev, raw) && OffsetsOk(ctx, raw)
    ensures overrun <==> ctx.filterSize == 0 && num >= 4
    ensures !overrun ==> Filtered(ctx, raw, offsets) && OffsetsOk(ctx, offsets)
  {
    var data := SearchOffsets(ctx, num, dev);
    raw := data[..];
    var size := num / 2 - 1;
    assert data[..size] == raw[..size] && data[size..] == [raw[size]];
    overrun := Median.MedianFilter(data, size, ctx.filterSize);
    offsets := data[..];
    if !overrun {
      assert offsets[..size] == data[..size] && offsets[size] == data[size..][0];
      forall k | 0 <= k < |offsets| ensures OffsetOk(ctx, offsets[k]) {
        if k < size { assert offsets[k] == offsets[..size][k] && offsets[k] in raw; }
      }
    }
  }

  // ----- resampling -----------------------------------------------------------------------

  predicate InInt32(x: int) { -0x8000_0000 <= x < 0x8000_0000 }

  /** Assignment to a signed 32-bit variable. */
  function Int32(x: int): (r: int)
    ensures InInt32(x) ==> r == x
  {
    (x + 0x8000_0000) % 0x1_0000_0000 - 0x8000_0000
  }

  /** The distance between a line and the next, in 16.16 fixed point. */
  function Step(ctx: Context, offset: int): nat {
    if offset > 0 then ctx.resolution * ONE / offset else 0
  }

  /** Where line i goes: the sum of the steps before it. */
  function LineY(ctx: Context, offsets: seq<int>, i: nat): nat
    requires i <= 2 * |offsets|
  {
    if i == 0 then 0 else LineY(ctx, offsets, i - 1) + Step(ctx, offsets[(i - 1) / 2])
  }

  function Ceiling(y: nat): nat { (y + ONE - 1) / ONE }

  /** The weighted mean of two pixels at height yi between y1 and y2. */
  function Interpolated(p1: Byte, y1: int, p2: Byte, y2: int, yi: int): int
    requires y1 < y2
  {
    ((yi - y1) * p2 + (y2 - yi) * p1) / (y2 - y1)
  }

  lemma WeightedMean(a: nat, b: nat, p: int, q: int, low: int, high: int)
    requires a + b > 0 && low <= p <= high && low <= q <= high
    ensures (a + b) * low <= a * q + b * p <= (a + b) * high
    ensures low <= (a * q + b * p) / (a + b) <= high
  {
    ProductGrows(low, q, a);
    ProductGrows(q, high, a);
    ProductGrows(low, p, b);
    ProductGrows(p, high, b);
    QuotientBetween(a * q + b * p, a + b, low, high);
  }

  /** An interpolated pixel lies between its two source pixels, and its computation within 32 bits. */
  lemma InterpolatedBetween(p1: Byte, y1: int, p2: Byte, y2: int, yi: int)
    requires y1 <= yi <= y2 && y1 < y2
    ensures p1 <= p2 ==> p1 <= Interpolated(p1, y1, p2, y2, yi) <= p2
    ensures p2 <= p1 ==> p2 <= Interpolated(p1, y1, p2, y2, yi) <= p1
    ensures 0 <= (yi - y1) * p2 + (y2 - yi) * p1 <= 255 * (y2 - y1)
  {
    var a, b := yi - y1, y2 - yi;
    assert a + b == y2 - y1;
    WeightedMean(a, b, p1, p2, 0, 255);
    if p1 <= p2 {
      WeightedMean(a, b, p1, p2, p1, p2);
    } else {
      WeightedMean(a, b, p1, p2, p2, p1);
    }
  }

  /** Which value exactly: the mean weighted by the distances, rounded down. */
  lemma InterpolatedExactly(p1: Byte, y1: int, p2: Byte, y2: int, yi: int)
    requires y1 <= yi <= y2 && y1 < y2
    ensures var r, sum := Interpolated(p1, y1, p2, y2, yi), (yi - y1) * p2 + (y2 - yi) * p1;
            r * (y2 - y1) <= sum < (r + 1) * (y2 - y1)
    ensures yi == y1 ==> Interpolated(p1, y1, p2, y2, yi) == p1
    ensures yi == y2 ==> Interpolated(p1, y1, p2, y2, yi) == p2
  {
    var sum, n := (yi - y1) * p2 + (y2 - yi) * p1, y2 - y1;
    QuotientSpan(sum, n);
    assert (sum / n + 1) * n == sum / n * n + n;
    if yi == y1 {
      assert sum == n * p1;
      QuotientBetween(sum, n, p1, p1);
    }
    if yi == y2 {
      assert sum == n * p2;
      QuotientBetween(sum, n, p2, p2);
    }
  }

  /** From one line to the next the pixel moves steadily from the first value to the second. */
  lemma InterpolatedMonotone(p1: Byte, y1: int, p2: Byte, y2: int, a: int, b: int)
    requires y1 <= a <= b <= y2 && y1 < y2
    ensures p1 <= p2 ==> Interpolated(p1, y1, p2, y2, a) <= Interpolated(p1, y1, p2, y2, b)
    ensures p2 <= p1 ==> Interpolated(p1, y1, p2, y2, a) >= Interpolated(p1, y1, p2, y2, b)
  {
    if p1 <= p2 {
      MeanMoves(a - y1, y2 - b, b - a, p1, p2);
      QuotientGrows((a - y1) * p2 + (y2 - a) * p1, (b - y1) * p2 + (y2 - b) * p1, y2 - y1);
    }
    if p2 <= p1 {
      MeanMoves(y2 - b, a - y1, b - a, p2, p1);
      QuotientGrows((b - y1) * p2 + (y2 - b) * p1, (a - y1) * p2 + (y2 - a) * p1, y2 - y1);
    }
  }

  /** Weight moved from the smaller to the larger value raises a sum. */
  lemma MeanMoves(a: int, b: int, d: nat, low: int, high: int)
    requires low <= high
    ensures a * high + (b + d) * low <= (a + d) * high + b * low
  {
    ProductGrows(low, high, d);
    assert (b + d) * low == b * low + d * low && (a + d) * high == a * high + d * high;
  }

  predicate LinesOk(ctx: Context, lines: seq<seq<Byte>>) {
    forall i | 0 <= i < |lines| :: |lines[i]| == ctx.width
  }

  /** Row l of the output interpolates lines i and i + 1, between whose heights it lies. */
  ghost predicate RowOk(ctx: Context, lines: seq<seq<Byte>>, offsets: seq<int>, output: array2<Byte>, l: nat, i: nat)
    reads output
  {
    LinesOk(ctx, lines) && i + 1 < |lines| && i + 1 <= 2 * |offsets| &&
    output.Length0 == ctx.maxHeight && output.Length1 == ctx.width && l < ctx.maxHeight &&
    LineY(ctx, offsets, i) <= l * ONE < LineY(ctx, offsets, i + 1) &&
    forall c | 0 <= c < ctx.width ::
      output[l, c] as int ==
      Interpolated(lines[i][c], LineY(ctx, offsets, i), lines[i + 1][c], LineY(ctx, offsets, i + 1), l * ONE)
  }

  method InterpolateLines(line1: seq<Byte>, y1: int, line2: seq<Byte>, y2: int,
                          output: array2<Byte>, l: nat, yi: int, size: nat)
    requires |line1| == |line2| == size == output.Length1 && l < output.Length0
    requires y1 <= yi <= y2 && y1 < y2 <= y1 + 128 * ONE
    modifies output
    ensures forall c | 0 <= c < size :: output[l, c] as int == Interpolated(line1[c], y1, line2[c], y2, yi)
    ensures forall k, c | 0 <= k < output.Length0 && k != l && 0 <= c < size :: output[k, c] == old(output[k, c])
  {
    for i := 0 to size
      invariant forall c | 0 <= c < i :: output[l, c] as int == Interpolated(line1[c], y1, line2[c], y2, yi)
      invariant forall k, c | 0 <= k < output.Length0 && k != l && 0 <= c < size :: output[k, c] == old(output[k, c])
    {
      output[l, i] := Pixel(line1[i], y1, line2[i], y2, yi);
    }
  }

  method Pixel(p1: Byte, y1: int, p2: Byte, y2: int, yi: int) returns (p: Byte)
    requires y1 <= yi <= y2 && y1 < y2 <= y1 + 128 * ONE
    ensures p as int == Interpolated(p1, y1, p2, y2, yi)
  {
    InterpolatedBetween(p1, y1, p2, y2, yi);
    var unscaled := Int32((yi - y1) * p2 + (y2 - yi) * p1);
    p := unscaled / (y2 - y1);
  }

  lemma StepBound(ctx: Context, offset: int)
    ensures Step(ctx, offset) <= ctx.resolution * ONE
  {
    if offset > 0 {
      ProductGrows(1, offset, ctx.resolution * ONE);
      QuotientBetween(ctx.resolution * ONE, offset, 0, ctx.resolution * ONE);
    }
  }

  /** The distance from a line to the next: the resolution divided by the offset of its pair, rounded down. */
  lemma LineGap(ctx: Context, offsets: seq<int>, i: nat)
    requires i < 2 * |offsets|
    ensures var gap, offset := LineY(ctx, offsets, i + 1) - LineY(ctx, offsets, i), offsets[i / 2];
            if offset > 0 then gap * offset <= ctx.resolution * 0x1_0000 < (gap + 1) * offset else gap == 0
    ensures LineY(ctx, offsets, 0) == 0
  {
    var offset := offsets[i / 2];
    if offset > 0 {
      var q := ctx.resolution * ONE / offset;
      QuotientSpan(ctx.resolution * ONE, offset);
      assert (q + 1) * offset == q * offset + offset;
    }
  }

  /** The height of the rows needed: the least whole number of rows that reaches y. */
  lemma CeilingExactly(y: nat)
    ensures (Ceiling(y) - 1) * 0x1_0000 < y <= Ceiling(y) * 0x1_0000
  {
  }

  lemma {:induction false} LineYGrows(ctx: Context, offsets: seq<int>, i: nat, j: nat)
    requires i <= j <= 2 * |offsets|
    ensures LineY(ctx, offsets, i) <= LineY(ctx, offsets, j)
  {
    if i < j { LineYGrows(ctx, offsets, i, j - 1); }
  }

  /** An output row lies between one pair of neighbouring lines only. */
  lemma SourceUnique(ctx: Context, offsets: seq<int>, y: nat, i: nat, j: nat)
    requires i < 2 * |offsets| && j < 2 * |offsets|
    requires LineY(ctx, offsets, i) <= y < LineY(ctx, offsets, i + 1)
    requires LineY(ctx, offsets, j) <= y < LineY(ctx, offsets, j + 1)
    ensures i == j
  {
    if i < j { LineYGrows(ctx, offsets, i + 1, j); }
    if j < i { LineYGrows(ctx, offsets, j + 1, i); }
  }

  /** The contexts for which no 32-bit value of the assembly overflows. */
  predicate ContextOk(ctx: Context) {
    ctx.resolution <= 128 && ctx.maxHeight + ctx.resolution < 0x8000
  }

  /** The end-of-buffer test: the comparison is unsigned, and so is the subtraction. */
  predicate PastEnd(line: nat, maxHeight: nat) {
    line > if maxHeight == 0 then 0xffff_ffff else maxHeight - 1
  }

  /** The test stops at the end of the buffer exactly when the buffer has a row at all. */
  lemma PastEndExactly(maxHeight: nat)
    requires maxHeight < 0x1_0000_0000
    ensures (forall line: nat | line < 0x8000_0000 :: PastEnd(line, maxHeight) <==> line >= maxHeight) <==> maxHeight >= 1
  {
    if maxHeight == 0 { assert !PastEnd(0, maxHeight); }
  }

  /** All output rows so far, `rows` naming the line each was taken from. */
  ghost predicate RowsOk(ctx: Context, lines: seq<seq<Byte>>, offsets: seq<int>, output: array2<Byte>, rows: seq<nat>)
    reads output
  {
    forall l | 0 <= l < |rows| :: RowOk(ctx, lines, offsets, output, l, rows[l])
  }

  /** How the rows before a line end: all written, the buffer full, or a row written outside it. */
  datatype Stop = Done | Full | Overrun

  /** The rows of the output between line i and the next, up to the end of the buffer. */
  method ResampleStep(ctx: Context, lines: seq<seq<Byte>>, offsets: seq<int>, output: array2<Byte>,
                      i: nat, y: int, ynext: int, line0: nat, ghost rows0: seq<nat>)
    returns (line: nat, stop: Stop, ghost rows: seq<nat>)
    requires ContextOk(ctx) && LinesOk(ctx, lines) && i + 1 < |lines| && i + 1 <= 2 * |offsets|
    requires output.Length0 == ctx.maxHeight && output.Length1 == ctx.width
    requires y == LineY(ctx, offsets, i) && ynext == LineY(ctx, offsets, i + 1) && y <= ynext <= y + 128 * ONE
    requires y <= line0 * ONE < y + ONE && line0 <= ctx.maxHeight
    requires |rows0| == line0 && RowsOk(ctx, lines, offsets, output, rows0)
    modifies output
    ensures |rows| == line <= ctx.maxHeight && RowsOk(ctx, lines, offsets, output, rows)
    ensures stop == Overrun <==> ctx.maxHeight == 0 && ynext > 0
    ensures stop != Done ==> line == ctx.maxHeight && line * ONE < ynext
    ensures stop == Done ==> ynext <= line * ONE < ynext + ONE
  {
    line, stop, rows := line0, Done, rows0;
    while line * ONE < ynext
      invariant |rows| == line <= ctx.maxHeight && RowsOk(ctx, lines, offsets, output, rows)
      invariant y <= line * ONE && (line * ONE < ynext + ONE || line == line0)
      decreases ynext - line * ONE
    {
      if PastEnd(line, ctx.maxHeight) { return line, Full, rows; }
      if line >= output.Length0 { return line, Overrun, rows; }
      InterpolateLines(lines[i], y, lines[i + 1], ynext, output, line, Int32(line * ONE), ctx.width);
      rows := rows + [i];
      line := line + 1;
    }
  }

  /**
   The height is the ceiling of the sum of all steps, capped by the maximum; every row
   interpolates the two lines it lies between. A row is written outside the buffer
   exactly when the buffer has no rows and the sum is positive.
   */
  method Resample(ctx: Context, lines: seq<seq<Byte>>, num: nat, offsets: seq<int>)
    returns (output: array2<Byte>, height: nat, overrun: bool, ghost rows: seq<nat>)
    requires ContextOk(ctx) && LinesOk(ctx, lines) && 2 <= num <= |lines| && |offsets| == num / 2
    ensures fresh(output) && |rows| == height && RowsOk(ctx, lines, offsets, output, rows)
    ensures overrun <==> ctx.maxHeight == 0 && LineY(ctx, offsets, num - 1) > 0
    ensures height == Min(ctx.maxHeight, Ceiling(LineY(ctx, offsets, num - 1)))
  {
    output := new Byte[ctx.maxHeight, ctx.width]((_, _) => 0);
    var y, line, stop := 0, 0, Done;
    rows := [];
    var i := 0;
    while i < num - 1
      invariant 0 <= i <= num - 1 && y == LineY(ctx, offsets, i) && y <= line * ONE < y + ONE
      invariant |rows| == line <= ctx.maxHeight && RowsOk(ctx, lines, offsets, output, rows)
    {
      var offset := offsets[i / 2];
      if offset > 0 {
        StepBound(ctx, offset);
        var ynext := Int32(y + ctx.resolution * ONE / offset);
        line, stop, rows := ResampleStep(ctx, lines, offsets, output, i, y, ynext, line, rows);
        if stop != Done {
          LineYGrows(ctx, offsets, i + 1, num - 1);
          return output, line, stop == Overrun, rows;
        }
        y := ynext;
      }
      i := i + 1;
    }
    height, overrun := line, false;
  }

  /** What the assembly comes to: an image, none for too few lines, or a write outside one of its buffers. */
  datatype Assembly = NoImage | FilterOverrun | OutputOverrun | Assembled(output: array2<Byte>, height: nat)

  method AssembleLines(ctx: Context, lines: seq<seq<Byte>>, num: nat, dev: (nat, nat) -> int)
    returns (r: Assembly, ghost offsets: seq<int>, ghost raw: seq<int>, ghost rows: seq<nat>)
    requires ContextOk(ctx) && LinesOk(ctx, lines) && num <= |lines|
    ensures r.NoImage? <==> num < 2
    ensures r.FilterOverrun? <==> ctx.filterSize == 0 && num >= 4
    ensures r.Assembled? || r.OutputOverrun? ==>
              Searched(ctx, num, dev, raw) && Filtered(ctx, raw, offsets) && OffsetsOk(ctx, offsets) &&
              (r.OutputOverrun? <==> ctx.maxHeight == 0 && LineY(ctx, offsets, num - 1) > 0)
    ensures r.Assembled? ==>
              |rows| == r.height && RowsOk(ctx, lines, offsets, r.output, rows) &&
              r.height == Min(ctx.maxHeight, Ceiling(LineY(ctx, offsets, num - 1)))
  {
    offsets, raw, rows := [], [], [];
    if num < 2 { return NoImage, [], [], []; }
    var found, overrun;
    found, overrun, raw := Offsets(ctx, num, dev);
    if overrun { return FilterOverrun, found, raw, []; }
    var output, height;
    output, height, overrun, rows := Resample(ctx, lines, num, found);
    if overrun { return OutputOverrun, found, raw, rows; }
    return Assembled(output, height), found, raw, rows;
  }

  /** Every output pixel lies between the pixels of the two lines it was taken from. */
  lemma PixelBetween(ctx: Context, lines: seq<seq<Byte>>, offsets: seq<int>, output: array2<Byte>,
                     rows: seq<nat>, l: nat, c: nat)
    requires RowsOk(ctx, lines, offsets, output, rows) && l < |rows| && c < ctx.width
    ensures RowOk(ctx, lines, offsets, output, l, rows[l])
    ensures var a, b := lines[rows[l]][c], lines[rows[l] + 1][c];
            (a <= output[l, c] <= b) || (b <= output[l, c] <= a)
  {
    var i := rows[l];
    InterpolatedBetween(lines[i][c], LineY(ctx, offsets, i), lines[i + 1][c], LineY(ctx, offsets, i + 1), l * ONE);
  }

  /** And it is exactly the mean of the two, weighted by the distances of the row from their lines. */
  lemma PixelExactly(ctx: Context, lines: seq<seq<Byte>>, offsets: seq<int>, output: array2<Byte>,
                     rows: seq<nat>, l: nat, c: nat)
    requires RowsOk(ctx, lines, offsets, output, rows) && l < |rows| && c < ctx.width
    ensures RowOk(ctx, lines, offsets, output, l, rows[l])
    ensures var i, y := rows[l], l * 0x1_0000;
            var y1, y2 := LineY(ctx, offsets, i), LineY(ctx, offsets, i + 1);
            var sum := (y - y1) * lines[i + 1][c] + (y2 - y) * lines[i][c];
            y1 <= y < y2 && output[l, c] * (y2 - y1) <= sum < (output[l, c] + 1) * (y2 - y1)
  {
    var i := rows[l];
    assert RowOk(ctx, lines, offsets, output, l, i);
    InterpolatedExactly(lines[i][c], LineY(ctx, offsets, i), lines[i + 1][c], LineY(ctx, offsets, i + 1), l * ONE);
  }
}
