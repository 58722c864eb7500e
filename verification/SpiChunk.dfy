/**
 SPI transfers cut into ioctl calls of at most two segments, one from the write and
 one into the read buffer. Sizes are 64-bit and wrap around.
 */
module SpiChunk {
  import opened Options

  const SIZE_RANGE: nat := 0x1_0000_0000_0000_0000

  function Minus(a: nat, b: nat): nat
    requires a < SIZE_RANGE && b < SIZE_RANGE
  {
    if a >= b then a - b else a + SIZE_RANGE - b
  }

  /** Lengths of the write and read buffers, where there is one; lengths are signed 64-bit. */
  datatype Job = Job(wr: Option<nat>, rd: Option<nat>)

  predicate LengthsOk(job: Job) {
    (job.wr.Some? ==> job.wr.value < SIZE_RANGE / 2) &&
    (job.rd.Some? ==> job.rd.value < SIZE_RANGE / 2)
  }

  function Length(buffer: Option<nat>): nat {
    if buffer.Some? then buffer.value else 0
  }

  function FullLength(job: Job): nat { Length(job.wr) + Length(job.rd) }

  datatype Segment = Tx(start: nat, len: nat) | Rx(start: nat, len: nat)

  /** One byte of one of the two buffers. */
  datatype Place = Written(i: nat) | Received(i: nat)

  function Places(s: Segment): seq<Place>
    decreases s.len
  {
    if s.len == 0 then []
    else if s.Tx? then Places(Tx(s.start, s.len - 1)) + [Written(s.start + s.len - 1)]
    else Places(Rx(s.start, s.len - 1)) + [Received(s.start + s.len - 1)]
  }

  function AllPlaces(segments: seq<Segment>): seq<Place> {
    if segments == [] then [] else AllPlaces(segments[..|segments| - 1]) + Places(segments[|segments| - 1])
  }

  /** Place number k of a job: the write buffer first, then the read buffer. */
  function PlaceAt(job: Job, k: nat): Place {
    if k < Length(job.wr) then Written(k) else Received(k - Length(job.wr))
  }

  function Interval(job: Job, from: nat, to: nat): (r: seq<Place>)
    requires from <= to
    ensures |r| == to - from
  {
    if from == to then [] else Interval(job, from, to - 1) + [PlaceAt(job, to - 1)]
  }

  lemma {:induction false} IntervalsJoin(job: Job, a: nat, b: nat, c: nat)
    requires a <= b <= c
    ensures Interval(job, a, b) + Interval(job, b, c) == Interval(job, a, c)
  {
    if b < c {
      IntervalsJoin(job, a, b, c - 1);
      assert Interval(job, a, b) + Interval(job, b, c) == Interval(job, a, c - 1) + [PlaceAt(job, c - 1)];
    }
  }

  lemma {:induction false} AllPlacesAppend(s: seq<Segment>, t: seq<Segment>)
    ensures AllPlaces(s + t) == AllPlaces(s) + AllPlaces(t)
  {
    if t == [] {
      assert s + t == s;
    } else {
      assert (s + t)[..|s + t| - 1] == s + t[..|t| - 1];
      AllPlacesAppend(s, t[..|t| - 1]);
      assert AllPlaces(s) + AllPlaces(t[..|t| - 1]) + Places(t[|t| - 1]) == AllPlaces(s) + AllPlaces(t);
    }
  }

  lemma SinglePlaces(s: Segment)
    ensures AllPlaces([s]) == Places(s)
  {
    assert [s][..0] == [] && AllPlaces([]) == [];
  }

  lemma {:induction false} TxPlaces(job: Job, k: nat, n: nat)
    requires k + n <= Length(job.wr)
    ensures Places(Tx(k, n)) == Interval(job, k, k + n)
  {
    if n > 0 { TxPlaces(job, k, n - 1); }
  }

  lemma {:induction false} RxPlaces(job: Job, k: nat, n: nat)
    requires k >= Length(job.wr)
    ensures Places(Rx(k - Length(job.wr), n)) == Interval(job, k, k + n)
  {
    if n > 0 { RxPlaces(job, k, n - 1); }
  }

  /** The segments are exactly the places of this interval. */
  predicate Covers(job: Job, segments: seq<Segment>, from: nat, to: nat) {
    from <= to && AllPlaces(segments) == Interval(job, from, to)
  }

  lemma CoversJoin(job: Job, s: seq<Segment>, t: seq<Segment>, a: nat, b: nat, c: nat)
    requires Covers(job, s, a, b) && Covers(job, t, b, c)
    ensures Covers(job, s + t, a, c)
  {
    AllPlacesAppend(s, t);
    IntervalsJoin(job, a, b, c);
  }

  /** Every segment carries at least one byte and at most a block. */
  predicate SegmentsOk(segments: seq<Segment>, block: nat) {
    forall s <- segments :: 1 <= s.len <= block
  }

  /** A segment of `a` written bytes at k, then one of `b` received bytes, either left out when empty. */
  function Pair(job: Job, k: nat, a: nat, b: nat): seq<Segment>
    requires b > 0 ==> k + a >= Length(job.wr)
  {
    (if a > 0 then [Tx(k, a)] else []) + (if b > 0 then [Rx(k + a - Length(job.wr), b)] else [])
  }

  lemma PairCovers(job: Job, k: nat, a: nat, b: nat, block: nat)
    requires a > 0 ==> k + a <= Length(job.wr)
    requires b > 0 ==> k + a >= Length(job.wr)
    requires a <= block && b <= block
    ensures Covers(job, Pair(job, k, a, b), k, k + a + b) && SegmentsOk(Pair(job, k, a, b), block)
  {
    var tx, rx := if a > 0 then [Tx(k, a)] else [], if b > 0 then [Rx(k + a - Length(job.wr), b)] else [];
    TxCovers(job, k, a);
    RxCovers(job, k + a, b);
    CoversJoin(job, tx, rx, k, k + a, k + a + b);
  }

  lemma TxCovers(job: Job, k: nat, a: nat)
    requires a > 0 ==> k + a <= Length(job.wr)
    ensures Covers(job, if a > 0 then [Tx(k, a)] else [], k, k + a)
  {
    if a > 0 {
      TxPlaces(job, k, a);
      SinglePlaces(Tx(k, a));
    }
  }

  lemma RxCovers(job: Job, k: nat, b: nat)
    requires b > 0 ==> k >= Length(job.wr)
    ensures Covers(job, if b > 0 then [Rx(k - Length(job.wr), b)] else [], k, k + b)
  {
    if b > 0 {
      RxPlaces(job, k, b);
      SinglePlaces(Rx(k - Length(job.wr), b));
    }
  }

  /** The segments of the next ioctl; `skip` wraps around while the write buffer is unfinished. */
  method FillSegments(job: Job, block: nat, transferred: nat)
    returns (segments: seq<Segment>, len: nat, ghost a: nat, ghost b: nat)
    requires LengthsOk(job) && 0 < block < 0x1_0000_0000 && transferred < FullLength(job)
    ensures a <= block && b <= block && len == a + b
    ensures a > 0 ==> transferred + a <= Length(job.wr)
    ensures b > 0 ==> a < block && transferred + a >= Length(job.wr)
    ensures segments == Pair(job, transferred, a, b) && |segments| >= 1
    ensures transferred + len <= FullLength(job)
    ensures len >= block || transferred + len == FullLength(job)
  {
    var skip := transferred;
    a, b, len, segments := 0, 0, 0, [];
    if job.wr.Some? {
      if skip < job.wr.value && len < block {
        var rest := Minus(job.wr.value, skip);
        var n := if block < rest then block else rest;
        segments := [Tx(skip, n)];
        len := len + n;
        skip := skip + n;
        a := n;
      }
      skip := Minus(skip, job.wr.value);
    }
    assert skip < Length(job.rd) ==> skip == transferred + a - Length(job.wr);
    assert a < block ==> transferred + a >= Length(job.wr);
    if job.rd.Some? {
      if skip < job.rd.value && len < block {
        var rest := Minus(job.rd.value, skip);
        var n := if block < rest then block else rest;
        segments := segments + [Rx(skip, n)];
        len := len + n;
        b := n;
      }
    }
  }

  /**
   One chunk: it moves exactly the places from `transferred` on, in order, and at
   least one. The check for a split transfer compares the wrong way round and never
   holds. A failed ioctl moves nothing.
   */
  method TransferChunk(job: Job, block: nat, transferred: nat, status: int)
    returns (segments: seq<Segment>, now: nat, split: bool, len: nat)
    requires LengthsOk(job) && 0 < block < 0x1_0000_0000 && transferred < FullLength(job)
    ensures 1 <= |segments| <= 2 && SegmentsOk(segments, block)
    ensures now == if status >= 0 then transferred + len else transferred
    ensures Covers(job, segments, transferred, transferred + len)
    ensures 1 <= len < 2 * block && transferred + len <= FullLength(job)
    ensures len >= block || transferred + len == FullLength(job)
    ensures !split
  {
    ghost var a, b;
    segments, len, a, b := FillSegments(job, block, transferred);
    PairCovers(job, transferred, a, b, block);
    split := FullLength(job) < transferred + len;
    now := if status >= 0 then transferred + len else transferred;
  }

  datatype Outcome = InvalidArgument | IoError(status: int) | Success

  /**
   The whole transfer, the answer of each ioctl given. The acknowledged segments are
   the write buffer and then the read buffer, without gap or overlap: all of both on
   success, and the part before the failed call otherwise.
   */
  method Transfer(job: Job, block: nat, answer: nat -> int)
    returns (outcome: Outcome, segments: seq<Segment>, transferred: nat, calls: nat)
    requires LengthsOk(job) && 0 < block < 0x1_0000_0000
    ensures SegmentsOk(segments, block)
    ensures transferred <= FullLength(job) && Covers(job, segments, 0, transferred)
    ensures outcome.InvalidArgument? <==> job.wr.None? && job.rd.None?
    ensures outcome.Success? ==> transferred == FullLength(job) && forall i | 0 <= i < calls :: answer(i) >= 0
    ensures outcome.IoError? ==> calls > 0 && answer(calls - 1) == outcome.status < 0 &&
                                 forall i | 0 <= i < calls - 1 :: answer(i) >= 0
    ensures calls * block < FullLength(job) + block
  {
    segments, transferred, calls := [], 0, 0;
    if job.wr.None? && job.rd.None? {
      return InvalidArgument, [], 0, 0;
    }
    var status := 0;
    ghost var spent := 0;
    while transferred < FullLength(job) && status >= 0
      invariant transferred <= FullLength(job) && Covers(job, segments, 0, transferred)
      invariant SegmentsOk(segments, block)
      invariant forall i | 0 <= i < calls - 1 :: answer(i) >= 0
      invariant if calls == 0 then status == 0 else status == answer(calls - 1)
      invariant spent == calls * block < FullLength(job) + block
      invariant status >= 0 && transferred < FullLength(job) ==> spent <= transferred
      decreases FullLength(job) - transferred, status >= 0
    {
      status := answer(calls);
      var chunk, now, split, len := TransferChunk(job, block, transferred, status);
      if status >= 0 {
        CoversJoin(job, segments, chunk, 0, transferred, now);
        segments := segments + chunk;
      }
      assert (calls + 1) * block == calls * block + block;
      transferred, calls, spent := now, calls + 1, spent + block;
    }
    outcome := if status < 0 then IoError(status) else Success;
  }

  /** The places of a whole job are its two buffers, each byte once and in order. */
  lemma {:induction false} IntervalAt(job: Job, to: nat, k: nat)
    requires k < to
    ensures Interval(job, 0, to)[k] == PlaceAt(job, k)
  {
    if k < to - 1 { IntervalAt(job, to - 1, k); }
  }
}
