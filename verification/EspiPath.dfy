/**
 The receive path from the embedded controller to user space: the interrupt thread
 reassembles packets and pushes them, while readers and flushers use the FIFO.
 */
module EspiPath {
  import opened Options
  import opened Bytes
  import opened EspiProto
  import R = EspiRx
  import Q = RxFifo

  /** `delivered` lists the payload of every record ever accepted; a flush does not shorten it. */
  datatype Path = Path(rx: R.System, queue: Q.Queue, delivered: seq<seq<Byte>>)

  datatype Event =
    | Irq(junk: seq<Byte>, stamp: seq<Byte>)   // one interrupt, with the rest of the window and the time stamp
    | User(step: Q.Step)

  predicate Enabled(p: Path, e: Event) {
    match e
    case Irq(junk, stamp) => R.Showing(p.rx) && |junk| == R.CHUNK && |stamp| == 8
    case User(step) => !step.Pushes? && Q.Enabled(p.queue, step)
  }

  function Payload(record: seq<Byte>): seq<Byte> {
    if |record| < Q.HEADER then [] else record[Q.HEADER..]
  }

  /** What follows the header of a packet. */
  function Content(packet: seq<Byte>): seq<Byte> {
    if |packet| < 4 then [] else packet[4..]
  }

  function Deliver(p: Path, packet: seq<Byte>, stamp: seq<Byte>): Path
    requires |stamp| == 8
  {
    var q := Q.Push(p.queue, packet, stamp);
    p.(queue := q,
       delivered := if |q.accepted| > |p.queue.accepted| then p.delivered + [Payload(q.accepted[|q.accepted| - 1])]
                    else p.delivered)
  }

  function Next(p: Path, e: Event): Path
    requires Enabled(p, e)
  {
    match e
    case User(step) => p.(queue := Q.Next(p.queue, step))
    case Irq(junk, stamp) =>
      var t := p.(rx := R.Interrupt(p.rx, junk));
      if |t.rx.pushed| > |p.rx.pushed| then Deliver(t, t.rx.pushed[|p.rx.pushed|], stamp) else t
  }

  predicate Feasible(p: Path, events: seq<Event>)
    decreases |events|
  {
    events == [] || (Enabled(p, events[0]) && Feasible(Next(p, events[0]), events[1..]))
  }

  function After(p: Path, events: seq<Event>): Path
    requires Feasible(p, events)
    decreases |events|
  {
    if events == [] then p else After(Next(p, events[0]), events[1..])
  }

  ghost predicate Inv(p: Path) { R.Inv(p.rx) && Q.Inv(p.queue) }

  predicate RoomFor(q: Q.Queue, packet: seq<Byte>) {
    q.inited && |q.fifo| + Q.HEADER + |packet| - 4 <= Q.CAPACITY
  }

  /** This event shows the last window of the packet at the head. */
  predicate Finishes(p: Path, e: Event) {
    e.Irq? && p.rx.ec.packets != [] && |p.rx.ec.packets[0]| <= p.rx.ec.offset + R.CHUNK
  }

  lemma DeliverKeepsInv(p: Path, packet: seq<Byte>, stamp: seq<Byte>)
    requires Q.Inv(p.queue) && R.Packet(packet) && |stamp| == 8
    ensures var t := Deliver(p, packet, stamp);
            && Q.Inv(t.queue) && t.rx == p.rx
            && (if RoomFor(p.queue, packet) then
                  && t.delivered == p.delivered + [Content(packet)]
                  && (exists r :: Q.Whole(r) && Payload(r) == Content(packet) && t.queue == Q.Appended(p.queue, r))
                else t == p)
  {
    R.PacketAccepted(packet);
    var mp := Some(Mp(packet[0], packet[4..]));
    Q.PushKeepsInv(p.queue, packet, stamp);
    Q.ParsedBelowLimit(packet);
    PushedPayload(p.queue, mp, stamp);
  }

  /** What a push appends carries exactly the payload it was given. */
  lemma PushedPayload(q: Q.Queue, mp: Option<Mp>, stamp: seq<Byte>)
    requires mp.Some? && Q.Parsed(mp) && |stamp| == 8
    ensures var t := Q.PushFrame(q, mp, stamp);
            if q.inited && |q.fifo| + Q.HEADER + |mp.value.payload| <= Q.CAPACITY then
              var r := Q.TapHeader(mp.value, stamp) + mp.value.payload;
              Q.Whole(r) && Payload(r) == mp.value.payload && t == Q.Appended(q, r)
            else t == q
  {
    var h := Q.TapHeader(mp.value, stamp);
    Q.TapHeaderShape(mp.value, stamp);
    Q.TapRecordWhole(mp.value, stamp);
    assert q.fifo + h + mp.value.payload == q.fifo + (h + mp.value.payload);
    assert (h + mp.value.payload)[Q.HEADER..] == mp.value.payload;
  }

  /** One step: a finished packet becomes one record with its payload exactly when there is room. */
  lemma StepDelivers(p: Path, e: Event)
    requires Inv(p) && Enabled(p, e)
    ensures var t := Next(p, e);
            && Inv(t)
            && (if Finishes(p, e) then
                  && t.rx.ec.packets == p.rx.ec.packets[1..]
                  && t.delivered == (if RoomFor(p.queue, p.rx.ec.packets[0])
                                     then p.delivered + [Content(p.rx.ec.packets[0])] else p.delivered)
                else t.rx.ec.packets == p.rx.ec.packets && t.delivered == p.delivered)
  {
    match e {
      case User(step) => Q.StepKeepsInv(p.queue, step);
      case Irq(junk, stamp) =>
        R.InterruptKeepsInv(p.rx, junk);
        if Finishes(p, e) {
          var packet := p.rx.ec.packets[0];
          assert R.Packet(packet);
          DeliverKeepsInv(p.(rx := R.Interrupt(p.rx, junk)), packet, stamp);
        }
    }
  }

  function Payloads(packets: seq<seq<Byte>>): seq<seq<Byte>> {
    if packets == [] then [] else [Content(packets[0])] + Payloads(packets[1..])
  }

  lemma FirstDelivered(delivered: seq<seq<Byte>>, packets: seq<seq<Byte>>)
    requires packets != []
    ensures delivered + [Content(packets[0])] + Payloads(packets[1..]) == delivered + Payloads(packets)
  {
  }

  /** The FIFO is registered and has room whenever a packet is finished. */
  predicate AlwaysRoom(p: Path, events: seq<Event>)
    requires Feasible(p, events)
    decreases |events|
  {
    events == [] ||
    ((Finishes(p, events[0]) ==> RoomFor(p.queue, p.rx.ec.packets[0])) &&
     AlwaysRoom(Next(p, events[0]), events[1..]))
  }

  /**
   Whatever readers and flushers do meanwhile, each packet the controller shows becomes,
   in order, one accepted record with its payload, as long as the FIFO has room for it.
   */
  lemma {:induction false} PacketsBecomeRecords(p: Path, events: seq<Event>)
    requires Inv(p) && Feasible(p, events) && AlwaysRoom(p, events)
    ensures var t := After(p, events);
            Inv(t) && t.delivered + Payloads(t.rx.ec.packets) == p.delivered + Payloads(p.rx.ec.packets)
    decreases |events|
  {
    if events != [] {
      var t := Next(p, events[0]);
      StepDelivers(p, events[0]);
      if Finishes(p, events[0]) {
        FirstDelivered(p.delivered, p.rx.ec.packets);
      }
      PacketsBecomeRecords(t, events[1..]);
    }
  }

  // ----- runs in which room may be short ------------------------------------------------

  /** The packet this event finishes, if any, and its content if it meets room. */
  function FinishedBy(p: Path, e: Event): seq<seq<Byte>> {
    if Finishes(p, e) then [p.rx.ec.packets[0]] else []
  }

  function DeliveredBy(p: Path, e: Event): seq<seq<Byte>> {
    if Finishes(p, e) && RoomFor(p.queue, p.rx.ec.packets[0]) then [Content(p.rx.ec.packets[0])] else []
  }

  function Finished(p: Path, events: seq<Event>): seq<seq<Byte>>
    requires Feasible(p, events)
    decreases |events|
  {
    if events == [] then [] else FinishedBy(p, events[0]) + Finished(Next(p, events[0]), events[1..])
  }

  function Delivered(p: Path, events: seq<Event>): seq<seq<Byte>>
    requires Feasible(p, events)
    decreases |events|
  {
    if events == [] then [] else DeliveredBy(p, events[0]) + Delivered(Next(p, events[0]), events[1..])
  }

  lemma StepParts(p: Path, e: Event)
    requires Inv(p) && Enabled(p, e)
    ensures var t := Next(p, e);
            && Inv(t) && t.delivered == p.delivered + DeliveredBy(p, e)
            && p.rx.ec.packets == FinishedBy(p, e) + t.rx.ec.packets
  {
    StepDelivers(p, e);
    if Finishes(p, e) { HeadFirst(p.rx.ec.packets); }
  }

  lemma HeadFirst(packets: seq<seq<Byte>>)
    requires packets != []
    ensures packets == [packets[0]] + packets[1..]
  {
  }

  /**
   For every run: the packets shown are finished in order, and the payloads delivered are, in
   order, those of exactly the finished packets for which the FIFO was registered and had room.
   */
  lemma {:induction false} DeliveredExactly(p: Path, events: seq<Event>)
    requires Inv(p) && Feasible(p, events)
    ensures var t := After(p, events);
            && Inv(t) && t.delivered == p.delivered + Delivered(p, events)
            && p.rx.ec.packets == Finished(p, events) + t.rx.ec.packets
    decreases |events|
  {
    if events != [] {
      var t, rest := Next(p, events[0]), events[1..];
      StepParts(p, events[0]);
      DeliveredExactly(t, rest);
      Regroup(p.delivered, DeliveredBy(p, events[0]), Delivered(t, rest));
      Regroup(FinishedBy(p, events[0]), Finished(t, rest), After(t, rest).rx.ec.packets);
    }
  }
}
