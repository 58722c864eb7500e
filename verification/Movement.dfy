/**
 Movement estimation over a swipe: one pass per direction, the deltas of every stripe
 updated in place, and a third pass when the forward direction fits better.
 */
module Movement {
  import opened Bytes
  import opened Options
  import opened Products
  import opened Overlap

  datatype Delta = Delta(x: int, y: int)

  function Negated(t: Delta): Delta { Delta(-t.x, -t.y) }

  predicate FramesOk(d: Dims, frames: seq<Frame>) {
    d.w >= 8 && forall i | 0 <= i < |frames| :: FrameOk(d, frames[i])
  }

  /** What a search yields: the shift, if any, and its error. */
  datatype Hit = Hit(best: Option<Delta>, error: nat)

  ghost predicate HitOk(hit: Hit, limit: nat) {
    hit.error <= limit && (hit.best.None? ==> hit.error == limit) && (hit.best.Some? ==> hit.best.value.y >= 2)
  }

  ghost predicate AllOk(hits: seq<Hit>, limit: nat) {
    forall k | 0 <= k < |hits| :: HitOk(hits[k], limit)
  }

  /** A position of the search: the candidates before it have been compared. */
  predicate Position(d: Dims, atX: int, atY: int) {
    -8 <= atX <= 8 && 2 <= atY && (atX > -8 ==> atY < d.h)
  }

  /** The outcome of the search of the candidates before a position. */
  function Scan(d: Dims, first: Frame, second: Frame, atX: int, atY: int): (hit: Hit)
    requires FrameOk(d, first) && FrameOk(d, second) && d.w >= 8
    requires Position(d, atX, atY) && (atY <= d.h || atY == 2)
    ensures HitOk(hit, Limit(d))
    decreases atY, atX + 8
  {
    if atX > -8 then
      Improved(Scan(d, first, second, atX - 1, atY), atX - 1, atY, Error(d, first, second, atX - 1, atY))
    else if atY > 2 then Scan(d, first, second, 8, atY - 1)
    else Hit(None, Limit(d))
  }

  /** The row of shifts at which the search ends. */
  function LastRow(d: Dims): nat { if d.h > 2 then d.h else 2 }

  function Improved(hit: Hit, dx: int, dy: int, err: nat): Hit {
    if err < hit.error then Hit(Some(Delta(-dx, dy)), err) else hit
  }

  function Searched(d: Dims, first: Frame, second: Frame): (hit: Hit)
    requires FrameOk(d, first) && FrameOk(d, second) && d.w >= 8
    ensures HitOk(hit, Limit(d))
  {
    Scan(d, first, second, -8, LastRow(d))
  }

  ghost predicate ScannedBy(d: Dims, first: Frame, second: Frame, hit: Hit, atX: int, atY: int)
    requires FrameOk(d, first) && FrameOk(d, second) && d.w >= 8
  {
    match hit.best
    case Some(t) => Scanned(d, first, second, true, -t.x, t.y, hit.error, atX, atY)
    case None => Scanned(d, first, second, false, 0, 0, hit.error, atX, atY)
  }

  lemma NothingScanned(d: Dims, first: Frame, second: Frame)
    requires FrameOk(d, first) && FrameOk(d, second) && d.w >= 8
    ensures ScannedBy(d, first, second, Hit(None, Limit(d)), -8, 2)
  {
  }

  lemma {:induction false} ScanIsScanned(d: Dims, first: Frame, second: Frame, atX: int, atY: int)
    requires FrameOk(d, first) && FrameOk(d, second) && d.w >= 8
    requires Position(d, atX, atY) && (atY <= d.h || atY == 2)
    ensures ScannedBy(d, first, second, Scan(d, first, second, atX, atY), atX, atY)
    decreases atY, atX + 8
  {
    if atX > -8 {
      ScanIsScanned(d, first, second, atX - 1, atY);
      ScanHit(d, first, second, Scan(d, first, second, atX - 1, atY), atX - 1, atY);
    } else if atY > 2 {
      ScanIsScanned(d, first, second, 8, atY - 1);
      RowHit(d, first, second, Scan(d, first, second, 8, atY - 1), atY - 1);
    } else {
      NothingScanned(d, first, second);
    }
  }

  lemma ScanHit(d: Dims, first: Frame, second: Frame, hit: Hit, dx: int, dy: int)
    requires FrameOk(d, first) && FrameOk(d, second) && d.w >= 8 && Candidate(d, dx, dy)
    requires ScannedBy(d, first, second, hit, dx, dy)
    ensures ScannedBy(d, first, second, Improved(hit, dx, dy, Error(d, first, second, dx, dy)), dx + 1, dy)
  {
    var t := if hit.best.Some? then hit.best.value else Delta(0, 0);
    ScanStep(d, first, second, hit.best.Some?, -t.x, t.y, hit.error, dx, dy);
  }

  lemma RowHit(d: Dims, first: Frame, second: Frame, hit: Hit, dy: int)
    requires FrameOk(d, first) && FrameOk(d, second) && d.w >= 8
    requires ScannedBy(d, first, second, hit, 8, dy)
    ensures ScannedBy(d, first, second, hit, -8, dy + 1)
  {
    var t := if hit.best.Some? then hit.best.value else Delta(0, 0);
    ScanRow(d, first, second, hit.best.Some?, -t.x, t.y, hit.error, dy);
  }

  /** The search yields the first minimum in scan order, and nothing when no error is below the limit. */
  lemma SearchedIs(d: Dims, first: Frame, second: Frame)
    requires FrameOk(d, first) && FrameOk(d, second) && d.w >= 8
    ensures var hit := Searched(d, first, second);
            if NoneBelow(d, first, second, Limit(d)) then hit == Hit(None, Limit(d))
            else hit.best.Some? && Candidate(d, -hit.best.value.x, hit.best.value.y) &&
                 FirstMinimum(d, first, second, -hit.best.value.x, hit.best.value.y, Limit(d)) &&
                 hit.error == Error(d, first, second, -hit.best.value.x, hit.best.value.y)
  {
    var hit := Searched(d, first, second);
    ScanIsScanned(d, first, second, -8, LastRow(d));
    var t := if hit.best.Some? then hit.best.value else Delta(0, 0);
    ScanDone(d, first, second, hit.best.Some?, -t.x, t.y, hit.error, LastRow(d));
  }

  lemma SearchedFound(d: Dims, first: Frame, second: Frame, dx: int, dy: int)
    requires FrameOk(d, first) && FrameOk(d, second) && d.w >= 8
    requires Candidate(d, dx, dy) && FirstMinimum(d, first, second, dx, dy, Limit(d))
    ensures Searched(d, first, second) == Hit(Some(Delta(-dx, dy)), Error(d, first, second, dx, dy))
  {
    SearchedIs(d, first, second);
    var t := Searched(d, first, second).best.value;
    FirstMinimumUnique(d, first, second, dx, dy, -t.x, t.y, Limit(d));
  }

  // ----- one pass -------------------------------------------------------------------

  /** The searches of a pass: forward each stripe against the one before it, reversed the other way round. */
  ghost function Hits(d: Dims, frames: seq<Frame>, reverse: bool, n: nat): (hits: seq<Hit>)
    requires FramesOk(d, frames) && n < |frames|
    ensures |hits| == n && AllOk(hits, Limit(d))
  {
    if n == 0 then []
    else Hits(d, frames, reverse, n - 1) + [SearchedPair(d, frames[n - 1], frames[n], reverse)]
  }

  ghost function SearchedPair(d: Dims, previous: Frame, current: Frame, reverse: bool): (hit: Hit)
    requires FrameOk(d, previous) && FrameOk(d, current) && d.w >= 8
    ensures HitOk(hit, Limit(d))
  {
    if reverse then Searched(d, previous, current) else Searched(d, current, previous)
  }

  /** A stripe's delta after a pass: a search without result keeps the old one, which the reverse pass negates. */
  function Passed(best: Option<Delta>, reverse: bool, was: Delta): Delta {
    var t := if best.Some? then best.value else was;
    if reverse then Negated(t) else t
  }

  /** The sum of the first n errors. */
  function TotalError(hits: seq<Hit>, n: nat): nat
    requires n <= |hits|
  {
    if n == 0 then 0 else TotalError(hits, n - 1) + hits[n - 1].error
  }

  /** The error of a pass per stripe, the first stripe counted. */
  function Average(hits: seq<Hit>): nat { TotalError(hits, |hits|) / (|hits| + 1) }

  lemma AverageIs(hits: seq<Hit>, total: nat, n: nat)
    requires total == TotalError(hits, |hits|) && n == |hits| + 1
    ensures Average(hits) == total / n
  {
  }

  method Search(d: Dims, first: Frame, second: Frame, was: Delta) returns (t: Delta, minError: nat)
    requires FrameOk(d, first) && FrameOk(d, second) && Fits(d)
    ensures t == Passed(Searched(d, first, second).best, false, was)
    ensures minError == Searched(d, first, second).error
  {
    var x, y, e := FindOverlap(d, first, second, was.x, was.y);
    t, minError := Delta(x, y), e;
    if NoneBelow(d, first, second, Limit(d)) {
      SearchedIs(d, first, second);
    } else {
      SearchedFound(d, first, second, -x, y);
    }
  }

  lemma {:induction false} HitsAt(d: Dims, frames: seq<Frame>, reverse: bool, n: nat, l: nat)
    requires FramesOk(d, frames) && 0 < l <= n < |frames|
    ensures Hits(d, frames, reverse, n)[l - 1] == SearchedPair(d, frames[l - 1], frames[l], reverse)
  {
    if l < n { HitsAt(d, frames, reverse, n - 1, l); }
  }

  ghost predicate HitAt(d: Dims, frames: seq<Frame>, reverse: bool, hits: seq<Hit>, l: nat)
    requires 0 < l < |frames| == |hits| + 1 && FramesOk(d, frames)
  {
    hits[l - 1] == SearchedPair(d, frames[l - 1], frames[l], reverse)
  }

  /** The searches of a whole pass over the frames. */
  ghost predicate HitsOf(d: Dims, frames: seq<Frame>, reverse: bool, hits: seq<Hit>) {
    FramesOk(d, frames) && |frames| == |hits| + 1 &&
    forall l | 0 < l < |frames| :: HitAt(d, frames, reverse, hits, l)
  }

  lemma HitsAreHits(d: Dims, frames: seq<Frame>, reverse: bool)
    requires FramesOk(d, frames) && frames != []
    ensures HitsOf(d, frames, reverse, Hits(d, frames, reverse, |frames| - 1))
  {
    var hits := Hits(d, frames, reverse, |frames| - 1);
    forall l | 0 < l < |frames| ensures HitAt(d, frames, reverse, hits, l) {
      HitsAt(d, frames, reverse, |frames| - 1, l);
    }
  }

  /** One step of a pass: the two frames in the order they are searched. */
  method SearchStep(d: Dims, frames: seq<Frame>, l: nat, reverse: bool, was: Delta, ghost hits: seq<Hit>)
    returns (t: Delta, e: nat)
    requires Fits(d) && 0 < l < |frames| && HitsOf(d, frames, reverse, hits)
    ensures t == Passed(hits[l - 1].best, reverse, was) && e == hits[l - 1].error
  {
    assert HitAt(d, frames, reverse, hits, l);
    if reverse {
      t, e := Search(d, frames[l - 1], frames[l], was);
      t := Delta(-t.x, -t.y);
    } else {
      t, e := Search(d, frames[l], frames[l - 1], was);
    }
  }

  /** The loop of a pass: every delta, and the sum of the errors. */
  method SearchAll(d: Dims, frames: seq<Frame>, deltas: array<Delta>, reverse: bool, ghost hits: seq<Hit>)
    returns (total: nat)
    requires Fits(d) && 0 < |frames| == deltas.Length == |hits| + 1 && HitsOf(d, frames, reverse, hits)
    modifies deltas
    ensures deltas[0] == old(deltas[0])
    ensures forall i | 0 < i < deltas.Length :: deltas[i] == Passed(hits[i - 1].best, reverse, old(deltas[i]))
    ensures total == TotalError(hits, |hits|)
  {
    var l := 1;
    total := 0;
    while l < |frames|
      invariant 1 <= l <= |frames|
      invariant deltas[0] == old(deltas[0])
      invariant forall i | 0 < i < deltas.Length ::
                  deltas[i] == if i < l then Passed(hits[i - 1].best, reverse, old(deltas[i])) else old(deltas[i])
      invariant total == TotalError(hits, l - 1)
    {
      var t, e := SearchStep(d, frames, l, reverse, deltas[l], hits);
      deltas[l] := t;
      total, l := total + e, l + 1;
    }
  }

  method EstimatePass(d: Dims, frames: seq<Frame>, deltas: array<Delta>, reverse: bool, ghost hits: seq<Hit>)
    returns (average: nat)
    requires Fits(d) && 0 < |frames| == deltas.Length == |hits| + 1 && HitsOf(d, frames, reverse, hits)
    modifies deltas
    ensures deltas[0] == old(deltas[0])
    ensures forall i | 0 < i < deltas.Length :: deltas[i] == Passed(hits[i - 1].best, reverse, old(deltas[i]))
    ensures average == Average(hits)
  {
    var total := SearchAll(d, frames, deltas, reverse, hits);
    AverageIs(hits, total, |frames|);
    average := total / |frames|;
  }

  // ----- the whole estimation --------------------------------------------------------------

  /** The two passes and the choice between them, as the rest of this model sees them. */
  datatype Passes = Passes(forward: seq<Hit>, backward: seq<Hit>)

  ghost predicate PassesOk(p: Passes, limit: nat) {
    |p.forward| == |p.backward| &&
    AllOk(p.forward, limit) && AllOk(p.backward, limit)
  }

  ghost function PassesOf(d: Dims, frames: seq<Frame>): (p: Passes)
    requires FramesOk(d, frames) && frames != []
    ensures PassesOk(p, Limit(d)) && |p.forward| == |frames| - 1
  {
    Passes(Hits(d, frames, false, |frames| - 1), Hits(d, frames, true, |frames| - 1))
  }

  predicate ForwardWins(p: Passes) {
    Average(p.forward) < Average(p.backward)
  }

  /** The delta of stripe k + 1 at the end: a forward and a reverse pass, and a forward one again if that wins. */
  function Estimated(p: Passes, k: nat, was: Delta): Delta
    requires k < |p.forward| == |p.backward|
  {
    var t := Passed(p.backward[k].best, true, Passed(p.forward[k].best, false, was));
    if ForwardWins(p) then Passed(p.forward[k].best, false, t) else t
  }

  method EstimateMovement(d: Dims, frames: seq<Frame>, deltas: array<Delta>)
    requires FramesOk(d, frames) && Fits(d) && 0 < |frames| == deltas.Length
    modifies deltas
    ensures deltas[0] == old(deltas[0])
    ensures forall i | 0 < i < deltas.Length :: deltas[i] == Estimated(PassesOf(d, frames), i - 1, old(deltas[i]))
  {
    ghost var p := PassesOf(d, frames);
    HitsAreHits(d, frames, false);
    HitsAreHits(d, frames, true);
    var err := EstimatePass(d, frames, deltas, false, p.forward);
    var reverseErr := EstimatePass(d, frames, deltas, true, p.backward);
    if err < reverseErr {
      var again := EstimatePass(d, frames, deltas, false, p.forward);
    }
  }

  /** The averages fit the signed 32-bit variables that compare them. */
  lemma AverageFits(hits: seq<Hit>, limit: nat)
    requires AllOk(hits, limit)
    ensures Average(hits) <= limit
  {
    TotalBound(hits, limit, |hits|);
    assert limit * (|hits| + 1) == limit * |hits| + limit;
    QuotientBetween(TotalError(hits, |hits|), |hits| + 1, 0, limit);
  }

  lemma {:induction false} TotalBound(hits: seq<Hit>, limit: nat, n: nat)
    requires AllOk(hits, limit) && n <= |hits|
    ensures TotalError(hits, n) <= limit * n
  {
    if n > 0 {
      TotalBound(hits, limit, n - 1);
      assert limit * n == limit * (n - 1) + limit;
    }
  }

  /** The outcome of the passes for one stripe, case by case. */
  lemma EstimatedExactly(p: Passes, k: nat, was: Delta)
    requires k < |p.forward| == |p.backward|
    ensures var forward, backward, t := p.forward[k].best, p.backward[k].best, Estimated(p, k, was);
            if ForwardWins(p) && forward.Some? then t == forward.value
            else
              var placed := if backward.Some? then backward.value else if forward.Some? then forward.value else was;
              t.x == -placed.x && t.y == -placed.y
  {
  }

  /** The direction is chosen by the sums of the errors per stripe, rounded down; ties go to reverse. */
  lemma AverageExactly(hits: seq<Hit>)
    ensures Average(hits) * (|hits| + 1) <= TotalError(hits, |hits|) < (Average(hits) + 1) * (|hits| + 1)
    ensures forall n: nat | n < |hits| :: TotalError(hits, n + 1) == TotalError(hits, n) + hits[n].error
    ensures TotalError(hits, 0) == 0
  {
    var n := |hits| + 1;
    QuotientSpan(TotalError(hits, |hits|), n);
    assert (Average(hits) + 1) * n == Average(hits) * n + n;
  }

  // ----- the direction of the swipe ----------------------------------------------------------

  /** A stripe the forward search cannot place and the reverse search can. */
  predicate Stale(p: Passes, k: nat)
    requires k < |p.forward| == |p.backward|
  {
    p.forward[k].best.None? && p.backward[k].best.Some?
  }

  lemma {:induction false} LowerTotal(f: seq<Hit>, b: seq<Hit>, limit: nat, n: nat) returns (k: nat)
    requires PassesOk(Passes(f, b), limit) && n <= |f| && TotalError(f, n) < TotalError(b, n)
    ensures k < |f| && f[k].best.Some?
  {
    if f[n - 1].error < b[n - 1].error {
      k := n - 1;
    } else {
      k := LowerTotal(f, b, limit, n - 1);
    }
  }

  predicate AllDown(p: Passes)
    requires |p.forward| == |p.backward|
  {
    forall k | 0 <= k < |p.forward| :: Estimated(p, k, Delta(0, 0)).y >= 0
  }

  predicate AllUp(p: Passes)
    requires |p.forward| == |p.backward|
  {
    forall k | 0 <= k < |p.forward| :: Estimated(p, k, Delta(0, 0)).y <= 0
  }

  lemma EstimatedSign(p: Passes, limit: nat, k: nat)
    requires PassesOk(p, limit) && k < |p.forward|
    ensures !ForwardWins(p) ==> Estimated(p, k, Delta(0, 0)).y <= 0
    ensures ForwardWins(p) && Stale(p, k) ==> Estimated(p, k, Delta(0, 0)).y <= -2
    ensures ForwardWins(p) && !Stale(p, k) ==> Estimated(p, k, Delta(0, 0)).y >= 0
    ensures ForwardWins(p) && p.forward[k].best.Some? ==> Estimated(p, k, Delta(0, 0)).y >= 2
  {
    assert HitOk(p.forward[k], limit) && HitOk(p.backward[k], limit);
  }

  /**
   Started from zero deltas, the estimation gives one direction for the whole swipe
   exactly when forward loses or no stripe is placed by the reverse search alone:
   such a stripe keeps its reverse delta through the last forward pass.
   */
  lemma OneDirectionExactly(p: Passes, limit: nat)
    requires PassesOk(p, limit)
    ensures AllDown(p) || AllUp(p) <==> !ForwardWins(p) || forall k | 0 <= k < |p.forward| :: !Stale(p, k)
    ensures !ForwardWins(p) ==> AllUp(p)
  {
    forall k | 0 <= k < |p.forward|
      ensures !ForwardWins(p) ==> Estimated(p, k, Delta(0, 0)).y <= 0
      ensures ForwardWins(p) && Stale(p, k) ==> Estimated(p, k, Delta(0, 0)).y <= -2
      ensures ForwardWins(p) && !Stale(p, k) ==> Estimated(p, k, Delta(0, 0)).y >= 0
    {
      EstimatedSign(p, limit, k);
    }
    if ForwardWins(p) {
      var n := |p.forward|;
      TotalsCompare(TotalError(p.forward, n), TotalError(p.backward, n), n + 1);
      var k := LowerTotal(p.forward, p.backward, limit, n);
      EstimatedSign(p, limit, k);
    }
  }

  lemma TotalsCompare(a: nat, b: nat, n: nat)
    requires n > 0 && a / n < b / n
    ensures a < b
  {
    SmallerProduct(n, n, a / n + 1, b / n);
    assert n * (a / n + 1) == n * (a / n) + n;
  }

  // ----- a swipe with both directions ----------------------------------------------------------

  const SMALL := Dims(9, 3)

  function Uniform(a: Byte): (row: seq<Byte>)
    ensures |row| == 9 && forall i | 0 <= i < 9 :: row[i] == a
  {
    [a, a, a, a, a, a, a, a, a]
  }

  function Striped(top: Byte, bottom: Byte): Frame { [Uniform(top), Uniform(0), Uniform(bottom)] }

  lemma {:induction false} UniformDifference(a: Byte, b: Byte, x1: nat, x2: nat, n: nat)
    requires x1 + n <= 9 && x2 + n <= 9
    ensures RowDifference(Uniform(a), Uniform(b), x1, x2, n) == Distance(a, b) * n
  {
    if n > 0 {
      UniformDifference(a, b, x1, x2, n - 1);
      var r, t := Uniform(a), Uniform(b);
      assert r[x1 + n - 1] == a && t[x2 + n - 1] == b;
      assert Distance(a, b) * n == Distance(a, b) * (n - 1) + Distance(a, b);
    }
  }

  lemma StripedError(t1: Byte, b1: Byte, t2: Byte, b2: Byte, dx: int)
    requires -8 <= dx < 8
    ensures FrameOk(SMALL, Striped(t1, b1)) && FrameOk(SMALL, Striped(t2, b2))
    ensures Error(SMALL, Striped(t1, b1), Striped(t2, b2), dx, 2) == Distance(t1, b2) * 27
  {
    var w, first, second := 9 - Abs(dx), Striped(t1, b1), Striped(t2, b2);
    UniformDifference(t1, b2, FirstX(dx), SecondX(dx), w);
    assert AreaDifference(SMALL, first, second, dx, 2, 0) == 0;
    assert AreaDifference(SMALL, first, second, dx, 2, 1) == Distance(t1, b2) * w;
    ScaledExact(Distance(t1, b2), w);
  }

  lemma ScaledExact(x: nat, w: nat)
    requires w > 0
    ensures Scaled(x * w, 27, w * 1) == x * 27
  {
    assert x * w * 27 == (x * 27) * w;
    QuotientBetween(x * 27 * w, w, x * 27, x * 27);
  }

  lemma StripedHit(t1: Byte, b1: Byte, t2: Byte, b2: Byte)
    ensures FrameOk(SMALL, Striped(t1, b1)) && FrameOk(SMALL, Striped(t2, b2))
    ensures Searched(SMALL, Striped(t1, b1), Striped(t2, b2)) ==
            Hit(if Distance(t1, b2) < 255 then Some(Delta(8, 2)) else None, Distance(t1, b2) * 27)
  {
    var first, second := Striped(t1, b1), Striped(t2, b2);
    forall dx | -8 <= dx < 8 ensures Error(SMALL, first, second, dx, 2) == Distance(t1, b2) * 27 {
      StripedError(t1, b1, t2, b2, dx);
    }
    FlatSearch(first, second, Distance(t1, b2) * 27);
  }

  /** Where every shift has the same error, the first one is found, unless the error is the limit. */
  lemma FlatSearch(first: Frame, second: Frame, e: nat)
    requires FrameOk(SMALL, first) && FrameOk(SMALL, second) && e <= 255 * 27
    requires forall dx | -8 <= dx < 8 :: Error(SMALL, first, second, dx, 2) == e
    ensures Searched(SMALL, first, second) == if e < 255 * 27 then Hit(Some(Delta(8, 2)), e) else Hit(None, e)
  {
    assert Limit(SMALL) == 255 * 27;
    if e < 255 * 27 {
      assert FirstMinimum(SMALL, first, second, -8, 2, Limit(SMALL));
      SearchedFound(SMALL, first, second, -8, 2);
    } else {
      SearchedIs(SMALL, first, second);
    }
  }

  function PairOfSwipe(reverse: bool, l: nat): Hit {
    if reverse <==> l == 1 then Hit(Some(Delta(8, 2)), 0) else Hit(None, 6885)
  }

  /** Four stripes that neither direction explains. */
  predicate IsSwipe(s: seq<Frame>) {
    |s| == 4 && s[0] == Striped(255, 255) && s[1] == Striped(0, 255) && s[2] == Striped(255, 255) && s[3] == Striped(255, 0)
  }

  lemma StripedOk(top: Byte, bottom: Byte)
    ensures FrameOk(SMALL, Striped(top, bottom))
  {
  }

  lemma SwipeOk(s: seq<Frame>)
    requires IsSwipe(s)
    ensures FramesOk(SMALL, s)
  {
    StripedOk(255, 255);
    StripedOk(0, 255);
    StripedOk(255, 0);
  }

  lemma StripedPair(previous: Frame, current: Frame, t1: Byte, b1: Byte, t2: Byte, b2: Byte, reverse: bool)
    requires previous == Striped(t1, b1) && current == Striped(t2, b2)
    ensures FrameOk(SMALL, previous) && FrameOk(SMALL, current)
    ensures var x := if reverse then Distance(t1, b2) else Distance(t2, b1);
            SearchedPair(SMALL, previous, current, reverse) == Hit(if x < 255 then Some(Delta(8, 2)) else None, x * 27)
  {
    if reverse { StripedHit(t1, b1, t2, b2); } else { StripedHit(t2, b2, t1, b1); }
  }

  lemma SwipePair(s: seq<Frame>, reverse: bool, l: nat)
    requires IsSwipe(s) && 0 < l < 4
    ensures FramesOk(SMALL, s) && SearchedPair(SMALL, s[l - 1], s[l], reverse) == PairOfSwipe(reverse, l)
  {
    SwipeOk(s);
    var previous, current := s[l - 1], s[l];
    if l == 1 {
      StripedPair(previous, current, 255, 255, 0, 255, reverse);
    } else if l == 2 {
      StripedPair(previous, current, 0, 255, 255, 255, reverse);
    } else {
      StripedPair(previous, current, 255, 255, 255, 0, reverse);
    }
  }

  lemma SwipeHits(s: seq<Frame>, reverse: bool, l: nat)
    requires IsSwipe(s) && 0 < l < 4
    ensures FramesOk(SMALL, s) && Hits(SMALL, s, reverse, |s| - 1)[l - 1] == PairOfSwipe(reverse, l)
  {
    SwipePair(s, reverse, l);
    HitsAt(SMALL, s, reverse, |s| - 1, l);
  }

  function SwipeDeltas(): seq<Delta> { [Delta(0, 0), Delta(-8, -2), Delta(8, 2), Delta(8, 2)] }

  predicate IsSide(hits: seq<Hit>, reverse: bool) {
    |hits| == 3 && hits[0] == PairOfSwipe(reverse, 1) && hits[1] == PairOfSwipe(reverse, 2) &&
    hits[2] == PairOfSwipe(reverse, 3)
  }

  lemma SwipeSide(s: seq<Frame>, reverse: bool)
    requires IsSwipe(s)
    ensures FramesOk(SMALL, s) && IsSide(Hits(SMALL, s, reverse, |s| - 1), reverse)
  {
    SwipeHits(s, reverse, 1);
    SwipeHits(s, reverse, 2);
    SwipeHits(s, reverse, 3);
  }

  /** Neither direction fits all the estimated movements, which are those of SwipeDeltas. */
  predicate Turns(p: Passes) {
    |p.forward| == 3 && |p.backward| == 3 && !AllDown(p) && !AllUp(p) &&
    Estimated(p, 0, Delta(0, 0)) == SwipeDeltas()[1] && Estimated(p, 1, Delta(0, 0)) == SwipeDeltas()[2] &&
    Estimated(p, 2, Delta(0, 0)) == SwipeDeltas()[3]
  }

  lemma MixedSwipe(p: Passes)
    requires IsSide(p.forward, false) && IsSide(p.backward, true)
    ensures Turns(p)
  {
    SumOfThree(p.forward);
    SumOfThree(p.backward);
    assert Estimated(p, 0, Delta(0, 0)) == Delta(-8, -2);
    assert Estimated(p, 1, Delta(0, 0)) == Delta(8, 2);
    assert Estimated(p, 2, Delta(0, 0)) == Delta(8, 2);
  }

  /** A swipe whose first movement is estimated upwards and the other two downwards. */
  lemma BothDirections(s: seq<Frame>)
    requires IsSwipe(s)
    ensures FramesOk(SMALL, s) && Fits(SMALL) && Turns(PassesOf(SMALL, s))
  {
    SwipeSide(s, false);
    SwipeSide(s, true);
    MixedSwipe(PassesOf(SMALL, s));
  }

  lemma SumOfThree(h: seq<Hit>)
    requires |h| == 3
    ensures TotalError(h, 3) == h[0].error + h[1].error + h[2].error
  {
    assert TotalError(h, 1) == h[0].error;
    assert TotalError(h, 2) == h[0].error + h[1].error;
  }
}
