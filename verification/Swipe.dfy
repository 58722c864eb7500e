/** A whole swipe without movement hardware: the movement is estimated and the stripes are assembled. */
module Swipe {
  import opened Options
  import opened Overlap
  import opened Movement
  import opened Opposite
  import opened Frames

  /** Forward loses, or no stripe keeps a stale delta of the reverse pass. */
  ghost predicate OneWay(d: Dims, frames: seq<Frame>)
    requires FramesOk(d, frames) && frames != []
  {
    !ForwardWins(PassesOf(d, frames)) || forall k: nat | k + 1 < |frames| :: !StaleFrames(d, frames, k)
  }

  /** The deltas that estimation leaves when all were zero before. */
  ghost predicate EstimatedDeltas(d: Dims, frames: seq<Frame>, deltas: seq<Delta>)
    requires FramesOk(d, frames) && frames != []
  {
    |deltas| == |frames| && deltas[0] == Delta(0, 0) &&
    forall i | 0 < i < |deltas| :: deltas[i] == Estimated(PassesOf(d, frames), i - 1, Delta(0, 0))
  }

  lemma OneWaySwipeFits(ctx: Context, frames: seq<Frame>, deltas: seq<Delta>)
    requires FramesOk(ctx.d, frames) && Fits(ctx.d) && frames != [] && EstimatedDeltas(ctx.d, frames, deltas)
    requires OneWay(ctx.d, frames)
    ensures RowsInside(ctx, deltas)
  {
    var p := PassesOf(ctx.d, frames);
    FramesMoveOneWayExactly(ctx.d, frames);
    if AllDown(p) {
      forall i | 0 <= i < |deltas| ensures deltas[i].y >= 0 {
        if i > 0 { assert Estimated(p, i - 1, Delta(0, 0)).y >= 0; }
      }
    } else {
      forall i | 0 <= i < |deltas| ensures deltas[i].y <= 0 {
        if i > 0 { assert Estimated(p, i - 1, Delta(0, 0)).y <= 0; }
      }
    }
    OneDirectionFits(ctx, deltas);
  }

  /** Every pixel is that of the stripes at their estimated places, and a one-way swipe has every stripe row in the image. */
  method AssembleSwipe(ctx: Context, frames: seq<Frame>) returns (r: Option<Image>, ghost deltas: seq<Delta>)
    requires FramesOk(ctx.d, frames) && Fits(ctx.d)
    ensures r.None? <==> frames == []
    ensures r.Some? ==>
              && EstimatedDeltas(ctx.d, frames, deltas)
              && r.value.width == ctx.imageWidth && r.value.height == Height(ctx.d, deltas)
              && ShowsComposite(r.value.data, r.value.width, r.value.height,
                                ctx.d, frames, Start(ctx, deltas), deltas, |frames|)
              && (OneWay(ctx.d, frames) ==> RowsInside(ctx, deltas))
  {
    deltas := [];
    if frames == [] { return None, []; }
    var moved := new Delta[|frames|](_ => Delta(0, 0));
    EstimateMovement(ctx.d, frames, moved);
    r := AssembleFrames(ctx, frames, moved);
    deltas := moved[..];
    if OneWay(ctx.d, frames) { OneWaySwipeFits(ctx, frames, deltas); }
  }
}
