/** Which frames the overlap search cannot place: those whose compared pixels are all black against white. */
module Opposite {
  import opened Bytes
  import opened Products
  import opened Overlap
  import opened Movement

  function PairDistance(a: seq<Byte>, b: seq<Byte>, x1: nat, x2: nat, j: nat): (e: nat)
    requires x1 + j < |a| && x2 + j < |b|
    ensures e <= 255
  {
    Distance(a[x1 + j], b[x2 + j])
  }

  predicate RowOpposite(a: seq<Byte>, b: seq<Byte>, x1: nat, x2: nat, n: nat)
    requires x1 + n <= |a| && x2 + n <= |b|
  {
    forall j | 0 <= j < n :: PairDistance(a, b, x1, x2, j) == 255
  }

  lemma {:induction false} RowOppositeExactly(a: seq<Byte>, b: seq<Byte>, x1: nat, x2: nat, n: nat)
    requires x1 + n <= |a| && x2 + n <= |b|
    ensures RowDifference(a, b, x1, x2, n) == 255 * n <==> RowOpposite(a, b, x1, x2, n)
  {
    if n > 0 {
      RowOppositeExactly(a, b, x1, x2, n - 1);
      RowDifferenceBound(a, b, x1, x2, n - 1);
      var last := PairDistance(a, b, x1, x2, n - 1);
      assert RowOpposite(a, b, x1, x2, n) <==> RowOpposite(a, b, x1, x2, n - 1) && last == 255;
    }
  }

  /** Every compared pair of pixels in the first n rows of a shift differs by 255. */
  predicate AreaOpposite(d: Dims, first: Frame, second: Frame, dx: int, dy: int, n: nat)
    requires FrameOk(d, first) && FrameOk(d, second) && d.w >= 8 && Candidate(d, dx, dy) && n <= d.h - dy
  {
    forall y | 0 <= y < n :: RowOpposite(first[y], second[dy + y], FirstX(dx), SecondX(dx), d.w - Abs(dx))
  }

  lemma {:induction false} AreaOppositeExactly(d: Dims, first: Frame, second: Frame, dx: int, dy: int, n: nat)
    requires FrameOk(d, first) && FrameOk(d, second) && d.w >= 8 && Candidate(d, dx, dy) && n <= d.h - dy
    ensures AreaDifference(d, first, second, dx, dy, n) == 255 * ((d.w - Abs(dx)) * n) <==>
            AreaOpposite(d, first, second, dx, dy, n)
  {
    var w := d.w - Abs(dx);
    if n > 0 {
      var a, b := first[n - 1], second[dy + n - 1];
      AreaOppositeExactly(d, first, second, dx, dy, n - 1);
      AreaDifferenceBound(d, first, second, dx, dy, n - 1);
      RowOppositeExactly(a, b, FirstX(dx), SecondX(dx), w);
      RowDifferenceBound(a, b, FirstX(dx), SecondX(dx), w);
      assert w * n == w * (n - 1) + w;
      assert AreaOpposite(d, first, second, dx, dy, n) <==>
             AreaOpposite(d, first, second, dx, dy, n - 1) && RowOpposite(a, b, FirstX(dx), SecondX(dx), w);
    }
  }

  lemma ScaledAtLimit(sum: nat, whole: nat, part: nat)
    requires whole > 0 && part > 0 && sum <= 255 * part
    ensures Scaled(sum, whole, part) >= 255 * whole <==> sum == 255 * part
  {
    var q := sum * whole / part;
    QuotientSpan(sum * whole, part);
    assert 255 * part * whole == 255 * whole * part;
    if sum == 255 * part {
      QuotientBetween(sum * whole, part, 255 * whole, 255 * whole);
    } else {
      SmallerProduct(sum + 1, 255 * part, whole, whole);
      assert (sum + 1) * whole == sum * whole + whole;
      if q >= 255 * whole { SmallerProduct(255 * whole, q, part, part); }
    }
  }

  lemma ErrorAtLimitExactly(d: Dims, first: Frame, second: Frame, dx: int, dy: int)
    requires FrameOk(d, first) && FrameOk(d, second) && Candidate(d, dx, dy) && d.w >= 8 && Abs(dx) < d.w
    ensures Error(d, first, second, dx, dy) >= Limit(d) <==> AreaOpposite(d, first, second, dx, dy, d.h - dy)
  {
    var w, h := d.w - Abs(dx), d.h - dy;
    AreaDifferenceBound(d, first, second, dx, dy, h);
    AreaOppositeExactly(d, first, second, dx, dy, h);
    SmallerProduct(1, w, 1, h);
    SmallerProduct(1, d.w, 1, d.h);
    ScaledAtLimit(AreaDifference(d, first, second, dx, dy, h), Area(d), w * h);
  }

  /** Under every shift that leaves anything to compare, every compared pair of pixels differs by 255. */
  ghost predicate AllOpposite(d: Dims, first: Frame, second: Frame)
    requires FrameOk(d, first) && FrameOk(d, second) && d.w >= 8
  {
    forall dx, dy | Candidate(d, dx, dy) && Abs(dx) < d.w :: AreaOpposite(d, first, second, dx, dy, d.h - dy)
  }

  /** The search finds nothing exactly for frames that are opposite under every shift. */
  lemma SearchedNoneExactly(d: Dims, first: Frame, second: Frame)
    requires FrameOk(d, first) && FrameOk(d, second) && Fits(d)
    ensures Searched(d, first, second).best.None? <==> AllOpposite(d, first, second)
  {
    LimitFits(d);
    forall dx, dy | Candidate(d, dx, dy) && Abs(dx) < d.w
      ensures Error(d, first, second, dx, dy) >= Limit(d) <==> AreaOpposite(d, first, second, dx, dy, d.h - dy)
    {
      ErrorAtLimitExactly(d, first, second, dx, dy);
    }
    NoneBelowExactly(d, first, second);
    SearchedIs(d, first, second);
  }

  lemma NoneBelowExactly(d: Dims, first: Frame, second: Frame)
    requires FrameOk(d, first) && FrameOk(d, second) && d.w >= 8 && Limit(d) < INT_MAX
    requires forall dx, dy | Candidate(d, dx, dy) && Abs(dx) < d.w ::
               Error(d, first, second, dx, dy) >= Limit(d) <==> AreaOpposite(d, first, second, dx, dy, d.h - dy)
    ensures NoneBelow(d, first, second, Limit(d)) <==> AllOpposite(d, first, second)
  {
    forall dx, dy | Candidate(d, dx, dy) && Abs(dx) >= d.w ensures Error(d, first, second, dx, dy) == INT_MAX {
    }
  }

  /** The stripe after frame k keeps a stale delta: it is opposite to its predecessor forwards, and not backwards. */
  ghost predicate StaleFrames(d: Dims, frames: seq<Frame>, k: nat)
    requires FramesOk(d, frames) && k + 1 < |frames|
  {
    AllOpposite(d, frames[k + 1], frames[k]) && !AllOpposite(d, frames[k], frames[k + 1])
  }

  lemma StaleExactly(d: Dims, frames: seq<Frame>, k: nat)
    requires FramesOk(d, frames) && Fits(d) && k + 1 < |frames|
    ensures Stale(PassesOf(d, frames), k) <==> StaleFrames(d, frames, k)
  {
    HitsAt(d, frames, false, |frames| - 1, k + 1);
    HitsAt(d, frames, true, |frames| - 1, k + 1);
    SearchedNoneExactly(d, frames[k + 1], frames[k]);
    SearchedNoneExactly(d, frames[k], frames[k + 1]);
  }

  /** The movements estimated for frames have one direction exactly when forward loses or no stripe is stale. */
  lemma FramesMoveOneWayExactly(d: Dims, frames: seq<Frame>)
    requires FramesOk(d, frames) && Fits(d) && frames != []
    ensures var p := PassesOf(d, frames);
            AllDown(p) || AllUp(p) <==>
            !ForwardWins(p) || forall k: nat | k + 1 < |frames| :: !StaleFrames(d, frames, k)
  {
    var p := PassesOf(d, frames);
    OneDirectionExactly(p, Limit(d));
    forall k: nat | k + 1 < |frames| ensures Stale(p, k) <==> StaleFrames(d, frames, k) {
      StaleExactly(d, frames, k);
    }
  }
}
