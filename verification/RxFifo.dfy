/**
 The byte FIFO between the interrupt thread, which pushes records, and user space,
 which reads whole records and flushes. A reader holds the mutex from its first
 look at the FIFO to its pop; every step below is one critical section of the spin
 lock, so any list of steps is an interleaving of pushers, readers and flushers.
 */
module RxFifo {
  import opened Options
  import opened Bytes
  import opened EspiProto

  const HEADER := 40           // sizeof(struct gxfp_tap_hdr), padding included
  const CAPACITY := 0x100000   // GXFP_RXQ_FIFO_BYTES

  const EINTR := -4
  const EAGAIN := -11
  const EFAULT := -14
  const ENODEV := -19

  // ----- records ------------------------------------------------------------------

  /** The length field of a header: a little-endian 32-bit number at its start. */
  function DeclaredLength(header: seq<Byte>): nat
    requires |header| >= 4
  {
    Le16(header[0], header[1]) + 0x10000 * Le16(header[2], header[3])
  }

  /** The size of the record at the head of the FIFO, from its header. */
  function Need(fifo: seq<Byte>): nat
    requires |fifo| >= HEADER
  {
    HEADER + DeclaredLength(fifo[..HEADER])
  }

  function TapHeader(mp: Mp, stamp: seq<Byte>): seq<Byte>
    requires |stamp| == 8
  {
    [Low(|mp.payload|), High(|mp.payload|), 0, 0] + [mp.flags / 16, 0, 0, 0] + Zeros(8) + stamp + First16(mp.payload)
  }

  /** The first 16 bytes of a payload, filled up with zeros. */
  function First16(payload: seq<Byte>): (h: seq<Byte>)
    ensures |h| == 16 && forall i | 0 <= i < 16 :: h[i] == if i < |payload| then payload[i] else 0
  {
    if |payload| >= 16 then payload[..16] else payload + Zeros(16 - |payload|)
  }

  predicate Whole(r: seq<Byte>) {
    |r| >= HEADER && |r| == HEADER + DeclaredLength(r)
  }

  function Concat(records: seq<seq<Byte>>): seq<Byte> {
    if records == [] then [] else records[0] + Concat(records[1..])
  }

  // ----- state ----------------------------------------------------------------------

  /** Where the reader that holds the mutex stands. */
  datatype Holder = NoOne | Waiting(count: nat) | Ready(count: nat) | Peeked(need: nat)

  datatype Result = Code(errno: int) | Data(record: seq<Byte>)

  /** `accepted` and `popped` list the records that went in and out since the last flush. */
  datatype Queue = Queue(
    inited: bool, fifo: seq<Byte>, holder: Holder,
    accepted: seq<seq<Byte>>, popped: seq<seq<Byte>>, results: seq<Result>)

  function Init(): Queue { Queue(true, [], NoOne, [], [], []) }

  function Return(q: Queue, r: Result): Queue { q.(holder := NoOne, results := q.results + [r]) }

  /** gxfp_uapi_rxq_push(). */
  function Push(q: Queue, buf: seq<Byte>, stamp: seq<Byte>): Queue
    requires |stamp| == 8
  {
    PushFrame(q, ParseMpFrame(buf), stamp)
  }

  /** The push of a frame as the MP parser sees it. */
  function PushFrame(q: Queue, mp: Option<Mp>, stamp: seq<Byte>): Queue
    requires |stamp| == 8
  {
    if !q.inited || mp.None? then q
    else
      var hdr := TapHeader(mp.value, stamp);
      if CAPACITY - |q.fifo| < |hdr| + |mp.value.payload| then q
      else q.(fifo := q.fifo + hdr + mp.value.payload, accepted := q.accepted + [hdr + mp.value.payload])
  }

  /** One pass of the loop in gxfp_uapi_wait_nonempty(). */
  function WaitNonempty(q: Queue, nonblock: bool, signal: bool): Queue
    requires q.holder.Waiting?
  {
    if !q.inited then Return(q, Code(ENODEV))
    else if q.fifo != [] then q.(holder := Ready(q.holder.count))
    else if nonblock then Return(q, Code(EAGAIN))
    else if signal then Return(q, Code(EINTR))
    else q
  }

  /** gxfp_uapi_peek_need(). */
  function PeekNeed(q: Queue): Queue
    requires q.holder.Ready?
  {
    if !q.inited then Return(q, Code(ENODEV))
    else if |q.fifo| < HEADER then Return(q, Code(EIO))
    else
      var need := Need(q.fifo);
      if |q.fifo| < need then Return(q, Code(EIO))
      else if q.holder.count < need then Return(q, Code(EMSGSIZE))
      else q.(holder := Peeked(need))
  }

  /** The allocation, gxfp_uapi_pop_record() and the copy to user space. */
  function PopRecord(q: Queue, memory: bool, copied: bool): Queue
    requires q.holder.Peeked?
  {
    var need := q.holder.need;
    if !memory then Return(q, Code(ENOMEM))
    else if !q.inited then Return(q, Code(ENODEV))
    else
      var n := if need <= |q.fifo| then need else |q.fifo|;
      var t := q.(fifo := q.fifo[n..], popped := q.popped + [q.fifo[..n]]);
      if n != need then Return(t, Code(EIO))
      else if !copied then Return(t, Code(EFAULT))
      else Return(t, Data(q.fifo[..n]))
  }

  /** gxfp_uapi_rxq_flush_locked() and gxfp_uapi_unregister(), both with the mutex held. */
  function Flush(q: Queue): Queue {
    if !q.inited then q else q.(fifo := [], accepted := [], popped := [])
  }

  function Unregister(q: Queue): Queue {
    if !q.inited then q else q.(inited := false, fifo := [], accepted := [], popped := [])
  }

  // ----- interleavings ------------------------------------------------------------------

  datatype Step =
    | Pushes(buf: seq<Byte>, stamp: seq<Byte>)
    | Locks(count: nat)
    | Waits(nonblock: bool, signal: bool)
    | Peeks
    | Pops(memory: bool, copied: bool)
    | Flushes
    | Unregisters

  /** The mutex admits one reader, flusher or unregistration at a time; a push needs only the spin lock. */
  predicate Enabled(q: Queue, s: Step) {
    match s
    case Pushes(_, stamp) => |stamp| == 8
    case Locks(count) => q.holder.NoOne? && count > 0
    case Waits(_, _) => q.holder.Waiting?
    case Peeks => q.holder.Ready?
    case Pops(_, _) => q.holder.Peeked?
    case Flushes => q.holder.NoOne?
    case Unregisters => q.holder.NoOne?
  }

  function Next(q: Queue, s: Step): Queue
    requires Enabled(q, s)
  {
    match s
    case Pushes(buf, stamp) => Push(q, buf, stamp)
    case Locks(count) => q.(holder := Waiting(count))
    case Waits(nonblock, signal) => WaitNonempty(q, nonblock, signal)
    case Peeks => PeekNeed(q)
    case Pops(memory, copied) => PopRecord(q, memory, copied)
    case Flushes => Flush(q)
    case Unregisters => Unregister(q)
  }

  predicate Interleaving(q: Queue, steps: seq<Step>)
    decreases |steps|
  {
    steps == [] || (Enabled(q, steps[0]) && Interleaving(Next(q, steps[0]), steps[1..]))
  }

  function After(q: Queue, steps: seq<Step>): Queue
    requires Interleaving(q, steps)
    decreases |steps|
  {
    if steps == [] then q else After(Next(q, steps[0]), steps[1..])
  }

  // ----- what every step keeps ------------------------------------------------------------

  function Queued(q: Queue): seq<seq<Byte>>
    requires |q.popped| <= |q.accepted|
  {
    q.accepted[|q.popped|..]
  }

  ghost predicate Honest(r: Result) {
    r != Code(EIO) && (r.Data? ==> Whole(r.record))
  }

  ghost predicate Inv(q: Queue) {
    && |q.fifo| <= CAPACITY
    && q.popped <= q.accepted
    && (forall i :: 0 <= i < |q.accepted| ==> Whole(q.accepted[i]))
    && q.fifo == Concat(Queued(q))
    && (q.holder.Ready? || q.holder.Peeked? ==> q.inited && Queued(q) != [])
    && (q.holder.Peeked? ==> q.holder.need == |Queued(q)[0]|)
    && (forall i :: 0 <= i < |q.results| ==> Honest(q.results[i]))
  }

  lemma {:induction false} ConcatAppend(records: seq<seq<Byte>>, r: seq<Byte>)
    ensures Concat(records + [r]) == Concat(records) + r
  {
    if records == [] {
      assert records + [r] == [r];
      assert Concat([r]) == r + Concat([]);
    } else {
      assert (records + [r])[1..] == records[1..] + [r];
      ConcatAppend(records[1..], r);
      assert records[0] + (Concat(records[1..]) + r) == (records[0] + Concat(records[1..])) + r;
    }
  }

  lemma HeaderDeclares(h: seq<Byte>, n: nat)
    requires |h| >= 4 && n < 0x10000 && h[..4] == [Low(n), High(n), 0, 0]
    ensures DeclaredLength(h) == n
  {
    assert h[0] == h[..4][0] && h[1] == h[..4][1] && h[2] == h[..4][2] && h[3] == h[..4][3];
    Le16RoundTrip(n);
  }

  lemma TapHeaderShape(mp: Mp, stamp: seq<Byte>)
    requires |stamp| == 8
    ensures |TapHeader(mp, stamp)| == HEADER
    ensures TapHeader(mp, stamp)[..4] == [Low(|mp.payload|), High(|mp.payload|), 0, 0]
  {
  }

  /** A pushed record is whole: its header declares the payload that follows. */
  lemma TapRecordWhole(mp: Mp, stamp: seq<Byte>)
    requires |stamp| == 8 && |mp.payload| < 0x10000
    ensures |TapHeader(mp, stamp)| == HEADER
    ensures Whole(TapHeader(mp, stamp) + mp.payload)
  {
    var h, n := TapHeader(mp, stamp), |mp.payload|;
    TapHeaderShape(mp, stamp);
    assert (h + mp.payload)[..4] == h[..4];
    HeaderDeclares(h + mp.payload, n);
  }

  /** The fields of a record where user space finds them: length, type, time stamp, first bytes and payload. */
  predicate HasFields(r: seq<Byte>, mp: Mp, stamp: seq<Byte>) {
    && |r| == 40 + |mp.payload|
    && IsLe16(r, 0, |mp.payload|) && IsLe16(r, 2, 0)
    && r[4] == mp.flags / 16
    && (forall i | 5 <= i < 16 :: r[i] == 0)
    && r[16..24] == stamp
    && (forall i | 24 <= i < 40 :: r[i] == if i - 24 < |mp.payload| then mp.payload[i - 24] else 0)
    && r[40..] == mp.payload
  }

  lemma RecordFields(mp: Mp, stamp: seq<Byte>)
    requires |stamp| == 8 && |mp.payload| < 0x10000
    ensures HasFields(TapHeader(mp, stamp) + mp.payload, mp, stamp)
  {
    var n := |mp.payload|;
    Le16RoundTrip(n);
    FieldsInPlace([Low(n), High(n), 0, 0], [mp.flags / 16, 0, 0, 0], Zeros(8), First16(mp.payload), mp, stamp);
  }

  lemma FieldsInPlace(len: seq<Byte>, kind: seq<Byte>, gap: seq<Byte>, head: seq<Byte>, mp: Mp, stamp: seq<Byte>)
    requires |len| == 4 && |kind| == 4 && |gap| == 8 && |stamp| == 8 && |head| == 16
    requires IsLe16(len, 0, |mp.payload|) && IsLe16(len, 2, 0)
    requires kind[0] == mp.flags / 16 && kind[1] == kind[2] == kind[3] == 0 && forall i | 0 <= i < 8 :: gap[i] == 0
    requires forall i | 0 <= i < 16 :: head[i] == if i < |mp.payload| then mp.payload[i] else 0
    ensures HasFields(len + kind + gap + stamp + head + mp.payload, mp, stamp)
  {
    PartsInPlace(len, kind, gap, stamp, head, mp.payload);
  }

  lemma PartsInPlace(len: seq<Byte>, kind: seq<Byte>, gap: seq<Byte>, stamp: seq<Byte>, head: seq<Byte>, payload: seq<Byte>)
    requires |len| == 4 && |kind| == 4 && |gap| == 8 && |stamp| == 8 && |head| == 16
    ensures var r := len + kind + gap + stamp + head + payload;
            && (forall i | 0 <= i < 4 :: r[i] == len[i])
            && (forall i | 4 <= i < 8 :: r[i] == kind[i - 4])
            && (forall i | 8 <= i < 16 :: r[i] == gap[i - 8])
            && r[16..24] == stamp
            && (forall i | 24 <= i < 40 :: r[i] == head[i - 24])
            && r[40..] == payload
  {
  }

  function Appended(q: Queue, r: seq<Byte>): Queue {
    q.(fifo := q.fifo + r, accepted := q.accepted + [r])
  }

  lemma AppendKeepsInv(q: Queue, r: seq<Byte>)
    requires Inv(q) && Whole(r) && |q.fifo| + |r| <= CAPACITY
    ensures Inv(Appended(q, r))
  {
    assert Queued(Appended(q, r)) == Queued(q) + [r];
    ConcatAppend(Queued(q), r);
  }

  /** Payloads of parsed frames are below the MP limit. */
  predicate Parsed(mp: Option<Mp>) { mp.Some? ==> |mp.value.payload| < MP_LEN_MAX }

  lemma ParsedBelowLimit(buf: seq<Byte>)
    ensures Parsed(ParseMpFrame(buf))
  {
  }

  /** A push either changes nothing or appends one whole record. */
  lemma PushAppends(q: Queue, mp: Option<Mp>, stamp: seq<Byte>) returns (r: seq<Byte>)
    requires |stamp| == 8 && PushFrame(q, mp, stamp) != q && Parsed(mp)
    ensures Whole(r) && |q.fifo| + |r| <= CAPACITY && PushFrame(q, mp, stamp) == Appended(q, r)
    ensures HasFields(r, mp.value, stamp)
  {
    RecordFields(mp.value, stamp);
    var h := TapHeader(mp.value, stamp);
    TapRecordWhole(mp.value, stamp);
    r := h + mp.value.payload;
    assert q.fifo + h + mp.value.payload == q.fifo + r;
  }

  lemma PushKeepsInv(q: Queue, buf: seq<Byte>, stamp: seq<Byte>)
    requires Inv(q) && |stamp| == 8
    ensures Inv(Push(q, buf, stamp))
  {
    ParsedBelowLimit(buf);
    PushFrameKeepsInv(q, ParseMpFrame(buf), stamp);
  }

  lemma PushFrameKeepsInv(q: Queue, mp: Option<Mp>, stamp: seq<Byte>)
    requires Inv(q) && |stamp| == 8 && Parsed(mp)
    ensures Inv(PushFrame(q, mp, stamp))
  {
    if PushFrame(q, mp, stamp) != q {
      var r := PushAppends(q, mp, stamp);
      AppendKeepsInv(q, r);
    }
  }

  /** The record at the head of the FIFO: what a peek sees is what the next pop takes. */
  lemma HeadRecord(q: Queue)
    requires Inv(q) && Queued(q) != []
    ensures var r := Queued(q)[0];
            && Whole(r) && |r| <= |q.fifo| && q.fifo[..|r|] == r
            && Need(q.fifo) == |r|
            && q.fifo[|r|..] == Concat(Queued(q)[1..])
  {
    var r := Queued(q)[0];
    assert r == q.accepted[|q.popped|];
    assert q.fifo == r + Concat(Queued(q)[1..]);
    assert q.fifo[..HEADER] == r[..HEADER];
  }

  lemma PopKeepsInv(q: Queue, memory: bool, copied: bool)
    requires Inv(q) && q.holder.Peeked?
    ensures Inv(PopRecord(q, memory, copied))
  {
    HeadRecord(q);
    var r := Queued(q)[0];
    assert r == q.accepted[|q.popped|];
    var t := PopRecord(q, memory, copied);
    if memory {
      assert t.popped == q.accepted[..|q.popped| + 1];
      assert Queued(t) == Queued(q)[1..];
    }
  }

  lemma StepKeepsInv(q: Queue, s: Step)
    requires Inv(q) && Enabled(q, s)
    ensures Inv(Next(q, s))
  {
    match s {
      case Pushes(buf, stamp) => PushKeepsInv(q, buf, stamp);
      case Locks(_) =>
      case Waits(_, _) =>
        if q.inited && q.fifo != [] { assert Queued(q) != []; }
      case Peeks => HeadRecord(q);
      case Pops(a, c) => PopKeepsInv(q, a, c);
      case Flushes =>
      case Unregisters =>
    }
  }

  lemma {:induction false} RunsKeepInv(q: Queue, steps: seq<Step>)
    requires Inv(q) && Interleaving(q, steps)
    ensures Inv(After(q, steps))
    decreases |steps|
  {
    if steps != [] {
      StepKeepsInv(q, steps[0]);
      RunsKeepInv(Next(q, steps[0]), steps[1..]);
    }
  }

  /** What a reader is told by a step, if the step ends its read. */
  function Told(q: Queue, s: Step): Option<Result>
    requires q.popped <= q.accepted
  {
    match s
    case Waits(nonblock, signal) =>
      if !q.inited then Some(Code(-19))
      else if Queued(q) != [] then None
      else if nonblock then Some(Code(-11))
      else if signal then Some(Code(-4)) else None
    case Peeks =>
      if Queued(q) != [] && q.holder.Ready? && q.holder.count < |Queued(q)[0]| then Some(Code(-90)) else None
    case Pops(memory, copied) =>
      if !memory then Some(Code(-12))
      else if !copied then Some(Code(-14))
      else if Queued(q) != [] then Some(Data(Queued(q)[0])) else None
    case _ => None
  }

  /** Each step of a reader ends with exactly the result named, and takes the oldest record exactly when there is memory for it. */
  lemma ToldExactly(q: Queue, s: Step)
    requires Inv(q) && Enabled(q, s)
    ensures var t, told := Next(q, s), Told(q, s);
            && t.results == q.results + (if told.Some? then [told.value] else [])
            && (told.Some? ==> t.holder.NoOne?)
            && (!s.Flushes? && !s.Unregisters? ==>
                  t.popped == q.popped + if s.Pops? && s.memory && Queued(q) != [] then [Queued(q)[0]] else [])
  {
    match s {
      case Waits(_, _) => if q.inited && q.fifo == [] { EmptyFifo(q); }
      case Peeks => HeadRecord(q);
      case Pops(_, _) => HeadRecord(q);
      case _ =>
    }
  }

  lemma EmptyFifo(q: Queue)
    requires Inv(q) && q.fifo == []
    ensures Queued(q) == []
  {
    if Queued(q) != [] { HeadRecord(q); }
  }

  /**
   In every interleaving the FIFO holds exactly the records accepted since the last
   flush and not yet popped, whole and in order, and no reader ever sees -EIO.
   */
  lemma EveryInterleavingKeepsRecords(steps: seq<Step>)
    requires Interleaving(Init(), steps)
    ensures var q := After(Init(), steps);
            && q.popped <= q.accepted
            && q.fifo == Concat(q.accepted[|q.popped|..])
            && (forall i :: 0 <= i < |q.accepted| ==> Whole(q.accepted[i]))
            && (forall i :: 0 <= i < |q.results| ==> q.results[i] != Code(EIO))
  {
    RunsKeepInv(Init(), steps);
  }

  /** A push appends one whole record at the end or changes nothing, and the former exactly when there is room. */
  lemma PushAllOrNothing(q: Queue, buf: seq<Byte>, stamp: seq<Byte>)
    requires Inv(q) && |stamp| == 8
    ensures var t, mp := Push(q, buf, stamp), ParseMpFrame(buf);
            t == q || (mp.Some? && exists r :: Whole(r) && HasFields(r, mp.value, stamp) && t == Appended(q, r))
    ensures Push(q, buf, stamp) != q <==>
            var mp := ParseMpFrame(buf);
            q.inited && mp.Some? && |q.fifo| + HEADER + |mp.value.payload| <= CAPACITY
  {
    ParsedBelowLimit(buf);
    PushFrameAllOrNothing(q, ParseMpFrame(buf), stamp);
  }

  lemma PushFrameAllOrNothing(q: Queue, mp: Option<Mp>, stamp: seq<Byte>)
    requires |stamp| == 8 && Parsed(mp)
    ensures var t := PushFrame(q, mp, stamp);
            t == q || (mp.Some? && exists r :: Whole(r) && HasFields(r, mp.value, stamp) && t == Appended(q, r))
    ensures PushFrame(q, mp, stamp) != q <==>
            q.inited && mp.Some? && |q.fifo| + HEADER + |mp.value.payload| <= CAPACITY
  {
    var t := PushFrame(q, mp, stamp);
    if t != q { var r := PushAppends(q, mp, stamp); }
    if q.inited && mp.Some? {
      TapHeaderShape(mp.value, stamp);
      if |q.fifo| + HEADER + |mp.value.payload| <= CAPACITY { assert |t.fifo| > |q.fifo|; }
    }
  }
}
