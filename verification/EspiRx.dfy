/**
 Reassembly of MP packets from successive mailbox windows, one window per
 interrupt, together with the embedded controller that shows the windows and
 moves on at each rising edge of the read-done line.
 */
module EspiRx {
  import opened Options
  import opened Bytes
  import opened EspiProto

  const CHUNK := 0xe00
  const CAPACITY := 128 * 1024
  const EBADMSG := -74

  /** The assembly fields of the device, its receive buffer, and the read-done line with its rising edges. */
  datatype Rx = Rx(active: bool, total: nat, copied: nat, buf: seq<Byte>, line: bool, edges: nat)

  datatype Outcome = Error(code: int) | Partial(len: nat) | Complete(len: nat)

  function Reset(rx: Rx): Rx { rx.(active := false, total := 0, copied := 0) }

  function SetReadDone(rx: Rx, value: bool): Rx {
    rx.(line := value, edges := if value && !rx.line then rx.edges + 1 else rx.edges)
  }

  function PulseReadDone(rx: Rx): Rx { SetReadDone(SetReadDone(rx, true), false) }

  function Min(a: nat, b: nat): nat { if a < b then a else b }

  /** Overwrites `buf` from `at` with `src`. */
  function Paste(buf: seq<Byte>, at: nat, src: seq<Byte>): seq<Byte>
    requires at + |src| <= |buf|
  {
    buf[..at] + src + buf[at + |src|..]
  }

  /** A read of the mailbox window: its bytes, or the error of a read that failed or had no buffer to go to. */
  datatype Read = Shown(bytes: seq<Byte>) | Failed(code: int)

  predicate ReadOk(r: Read) { r.Shown? ==> |r.bytes| == CHUNK }

  predicate Sized(rx: Rx) { |rx.buf| == CAPACITY }

  /** gxfp_espi_irq_read_step() on an idle device: the first window carries the header. */
  function FirstWindow(rx: Rx, read: Read): (r: (Rx, Outcome))
    requires Sized(rx) && ReadOk(read)
    ensures Sized(r.0)
  {
    if read.Failed? then (Reset(rx), Error(read.code))
    else
      var t := rx.(buf := Paste(rx.buf, 0, read.bytes));
      var head := CheckMpHead(read.bytes[..4]);
      if head.None? then (Reset(t), Error(EBADMSG))
      else
        var total := 4 + head.value;
        if total > CAPACITY then (Reset(t), Error(EMSGSIZE))
        else if Min(total, CHUNK) >= total then (Reset(SetReadDone(t, true)), Complete(total))
        else (PulseReadDone(t.(active := true, total := total, copied := CHUNK)), Partial(CHUNK))
  }

  /** gxfp_espi_irq_read_step() on a device that is assembling, defensive branches included. */
  function LaterWindow(rx: Rx, read: Read): (r: (Rx, Outcome))
    requires Sized(rx) && ReadOk(read)
    ensures Sized(r.0)
  {
    if rx.total == 0 || rx.copied == 0 || rx.copied > CAPACITY then (Reset(rx), Error(EINVAL))
    else
      var remain := if rx.copied < rx.total then rx.total - rx.copied else 0;
      var chunk := Min(remain, CHUNK);
      if chunk == 0 then (Reset(rx), Complete(rx.total))
      else if rx.copied + chunk > CAPACITY then (Reset(rx), Error(EMSGSIZE))
      else if read.Failed? then (Reset(rx), Error(read.code))
      else
        var t := rx.(buf := Paste(rx.buf, rx.copied, read.bytes[..chunk]), copied := rx.copied + chunk);
        if t.copied < t.total then (PulseReadDone(t), Partial(t.copied))
        else (Reset(SetReadDone(t, true)), Complete(t.total))
  }

  function ReadStep(rx: Rx, read: Read): (r: (Rx, Outcome))
    requires Sized(rx) && ReadOk(read)
    ensures Sized(r.0)
  {
    if rx.active then LaterWindow(rx, read) else FirstWindow(rx, read)
  }

  /** gxfp_irq_thread(): one window, then the line is lowered and a finished packet queued. */
  function Handle(rx: Rx, pushed: seq<seq<Byte>>, read: Read): (r: (Rx, seq<seq<Byte>>))
    requires Sized(rx) && ReadOk(read)
    ensures Sized(r.0)
  {
    var (t, out) := ReadStep(rx, read);
    (SetReadDone(t, false),
     // the length is within the buffer whenever the invariant below holds
     if out.Complete? && out.len != 0 && out.len <= |t.buf| then pushed + [t.buf[..out.len]] else pushed)
  }

  // ----- the embedded controller --------------------------------------------------

  /** A packet is its four-byte MP header followed by exactly the length the header declares. */
  predicate Packet(p: seq<Byte>) {
    |p| >= 4 && CheckMpHead(p[..4]) == Some(|p| - 4)
  }

  /** The packets still to be shown; the first of them is shown from `offset` on. */
  datatype Ec = Ec(packets: seq<seq<Byte>>, offset: nat)

  /** The current window; beyond the end of the packet the mailbox holds whatever it held. */
  function Window(ec: Ec, junk: seq<Byte>): (w: seq<Byte>)
    requires ec.packets != [] && ec.offset < |ec.packets[0]| && |junk| == CHUNK
    ensures |w| == CHUNK
  {
    var rest := ec.packets[0][ec.offset..];
    if |rest| >= CHUNK then rest[..CHUNK] else rest + junk[|rest|..]
  }

  function Advance(ec: Ec): Ec
    requires ec.packets != []
  {
    if ec.offset + CHUNK < |ec.packets[0]| then ec.(offset := ec.offset + CHUNK)
    else Ec(ec.packets[1..], 0)
  }

  datatype System = System(rx: Rx, ec: Ec, pushed: seq<seq<Byte>>)

  predicate Showing(s: System) {
    Sized(s.rx) && s.ec.packets != [] && s.ec.offset < |s.ec.packets[0]|
  }

  function Interrupt(s: System, junk: seq<Byte>): System
    requires Showing(s) && |junk| == CHUNK
  {
    var (rx, pushed) := Handle(s.rx, s.pushed, Shown(Window(s.ec, junk)));
    System(rx, if rx.edges > s.rx.edges then Advance(s.ec) else s.ec, pushed)
  }

  // ----- what every interrupt keeps -------------------------------------------------

  /** Windows needed for `n` bytes: n / CHUNK rounded up. */
  function Windows(n: nat): nat { (n + CHUNK - 1) / CHUNK }

  function WindowsLeft(packets: seq<seq<Byte>>): nat {
    if packets == [] then 0 else Windows(|packets[0]|) + WindowsLeft(packets[1..])
  }

  function Left(ec: Ec): int {
    WindowsLeft(ec.packets) - ec.offset / CHUNK
  }

  ghost predicate AllPackets(packets: seq<seq<Byte>>) {
    forall i {:trigger Packet(packets[i])} :: 0 <= i < |packets| ==> Packet(packets[i])
  }

  lemma HeadPacket(packets: seq<seq<Byte>>)
    requires AllPackets(packets) && packets != []
    ensures 4 <= |packets[0]| < MP_LEN_MAX + 4 < CAPACITY && AllPackets(packets[1..])
  {
    PacketSize(packets[0]);
  }

  ghost predicate Inv(s: System) {
    && Sized(s.rx) && !s.rx.line
    && AllPackets(s.ec.packets)
    && (if s.rx.active then
          && s.ec.packets != []
          && s.rx.total == |s.ec.packets[0]| <= CAPACITY
          && 0 < s.rx.copied < s.rx.total && s.rx.copied % CHUNK == 0
          && s.ec.offset == s.rx.copied
          && s.rx.buf[..s.rx.copied] == s.ec.packets[0][..s.rx.copied]
        else s.ec.offset == 0)
  }

  lemma PacketSize(p: seq<Byte>)
    requires Packet(p)
    ensures 4 <= |p| < MP_LEN_MAX + 4 < CAPACITY
  {
  }

  lemma WindowPrefix(ec: Ec, junk: seq<Byte>, n: nat)
    requires ec.packets != [] && ec.offset + n <= |ec.packets[0]| && n <= CHUNK && |junk| == CHUNK
    requires ec.offset < |ec.packets[0]|
    ensures Window(ec, junk)[..n] == ec.packets[0][ec.offset..ec.offset + n]
  {
  }

  /** The first window of a packet, which is also the last one of a short packet. */
  lemma FirstInterrupt(s: System, junk: seq<Byte>)
    requires Inv(s) && !s.rx.active && s.ec.packets != [] && |junk| == CHUNK
    ensures Showing(s)
    ensures var t := Interrupt(s, junk);
            var p := s.ec.packets[0];
            && Inv(t) && t.rx.edges == s.rx.edges + 1 && t.ec == Advance(s.ec)
            && t.pushed == (if |p| <= CHUNK then s.pushed + [p] else s.pushed)
  {
    var p := s.ec.packets[0];
    assert Packet(p);
    HeadPacket(s.ec.packets);
    var w := Window(s.ec, junk);
    WindowPrefix(s.ec, junk, 4);
    WindowPrefix(s.ec, junk, Min(|p|, CHUNK));
    var buf := Paste(s.rx.buf, 0, w);
    assert buf[..CHUNK] == w;
    if |p| <= CHUNK {
      assert buf[..|p|] == w[..|p|] == p;
    } else {
      assert buf[..CHUNK] == p[..CHUNK];
    }
  }

  /** A later window of a packet, in terms of the receiver alone. */
  lemma LaterStep(rx: Rx, pushed: seq<seq<Byte>>, p: seq<Byte>, w: seq<Byte>)
    requires Sized(rx) && rx.active && !rx.line && |w| == CHUNK && |p| < CAPACITY
    requires rx.total == |p| && 0 < rx.copied < |p| && rx.buf[..rx.copied] == p[..rx.copied]
    requires w[..Min(|p| - rx.copied, CHUNK)] == p[rx.copied..rx.copied + Min(|p| - rx.copied, CHUNK)]
    ensures var (t, out) := Handle(rx, pushed, Shown(w));
            && Sized(t) && !t.line && t.edges == rx.edges + 1
            && (if |p| <= rx.copied + CHUNK then !t.active && out == pushed + [p]
                else t.active && out == pushed && t.total == |p| && t.copied == rx.copied + CHUNK &&
                     t.buf[..t.copied] == p[..t.copied])
  {
    var chunk := Min(|p| - rx.copied, CHUNK);
    PasteExtends(rx.buf, p, rx.copied, w[..chunk]);
    if rx.copied + chunk == |p| { assert p[..|p|] == p; }
  }

  lemma LaterInterrupt(s: System, junk: seq<Byte>)
    requires Inv(s) && s.rx.active && |junk| == CHUNK
    ensures Showing(s)
    ensures var t := Interrupt(s, junk);
            var p := s.ec.packets[0];
            && Inv(t) && t.rx.edges == s.rx.edges + 1 && t.ec == Advance(s.ec)
            && t.pushed == (if |p| <= s.ec.offset + CHUNK then s.pushed + [p] else s.pushed)
  {
    var p := s.ec.packets[0];
    HeadPacket(s.ec.packets);
    WindowPrefix(s.ec, junk, Min(|p| - s.rx.copied, CHUNK));
    LaterStep(s.rx, s.pushed, p, Window(s.ec, junk));
  }

  lemma PasteExtends(buf: seq<Byte>, p: seq<Byte>, copied: nat, part: seq<Byte>)
    requires copied + |part| <= |buf| && copied + |part| <= |p|
    requires buf[..copied] == p[..copied] && part == p[copied..copied + |part|]
    ensures Paste(buf, copied, part)[..copied + |part|] == p[..copied + |part|]
  {
    assert Paste(buf, copied, part)[..copied + |part|] == buf[..copied] + part;
    assert p[..copied + |part|] == p[..copied] + part;
  }

  /** One interrupt: one rising edge, one window fewer to go, and no packet lost, doubled or reordered. */
  lemma InterruptKeepsInv(s: System, junk: seq<Byte>)
    requires Inv(s) && s.ec.packets != [] && |junk| == CHUNK
    ensures Showing(s)
    ensures var t := Interrupt(s, junk);
            && Inv(t) && t.rx.edges == s.rx.edges + 1 && t.ec == Advance(s.ec)
            && t.pushed == (if |s.ec.packets[0]| <= s.ec.offset + CHUNK then s.pushed + [s.ec.packets[0]] else s.pushed)
            && t.pushed + t.ec.packets == s.pushed + s.ec.packets
            && Left(t.ec) == Left(s.ec) - 1
  {
    AdvanceCounts(s.ec, s.pushed) by {
      HeadPacket(s.ec.packets);
    }
    if s.rx.active { LaterInterrupt(s, junk); } else { FirstInterrupt(s, junk); }
  }

  lemma AdvanceCounts(ec: Ec, pushed: seq<seq<Byte>>)
    requires ec.packets != [] && ec.offset < |ec.packets[0]| && ec.offset % CHUNK == 0
    ensures Left(Advance(ec)) == Left(ec) - 1
    ensures (if |ec.packets[0]| <= ec.offset + CHUNK then pushed + [ec.packets[0]] else pushed)
            + Advance(ec).packets == pushed + ec.packets
  {
    var ps := ec.packets;
    assert ps == [ps[0]] + ps[1..];
    assert pushed + [ps[0]] + ps[1..] == pushed + ps;
    WindowArithmetic(|ps[0]|, ec.offset);
  }

  lemma WindowArithmetic(size: nat, offset: nat)
    requires offset < size && offset % CHUNK == 0
    ensures offset + CHUNK < size ==> (offset + CHUNK) / CHUNK == offset / CHUNK + 1
    ensures offset + CHUNK >= size ==> Windows(size) == offset / CHUNK + 1
    ensures offset / CHUNK < Windows(size)
  {
  }

  lemma LeftPositive(s: System)
    requires Inv(s)
    ensures Left(s.ec) >= 0
    ensures Left(s.ec) == 0 <==> s.ec.packets == []
  {
    if s.ec.packets != [] {
      HeadPacket(s.ec.packets);
      WindowArithmetic(|s.ec.packets[0]|, s.ec.offset);
    }
  }

  /** The system after one interrupt per element of `junk`, as long as there is something to show. */
  function AfterInterrupts(s: System, junk: seq<seq<Byte>>): System
    requires forall i :: 0 <= i < |junk| ==> |junk[i]| == CHUNK
    decreases |junk|
  {
    if junk == [] || !Showing(s) then s else AfterInterrupts(Interrupt(s, junk[0]), junk[1..])
  }

  /** However many packets the controller has, each interrupt accounts for one window of them. */
  lemma {:induction false} PacketsConserved(s: System, junk: seq<seq<Byte>>)
    requires Inv(s) && |junk| <= Left(s.ec) && forall i :: 0 <= i < |junk| ==> |junk[i]| == CHUNK
    ensures var t := AfterInterrupts(s, junk);
            && Inv(t) && t.rx.edges == s.rx.edges + |junk|
            && t.pushed + t.ec.packets == s.pushed + s.ec.packets
            && Left(t.ec) == Left(s.ec) - |junk|
            && (|junk| == Left(s.ec) ==> t.ec.packets == [] && t.pushed == s.pushed + s.ec.packets)
    decreases |junk|
  {
    LeftPositive(s);
    if junk != [] {
      InterruptKeepsInv(s, junk[0]);
      PacketsConserved(Interrupt(s, junk[0]), junk[1..]);
      LeftPositive(AfterInterrupts(s, junk));
    }
  }

  /** A packet is finished at exactly the interrupt that shows its last window, and not before. */
  lemma {:induction false} FinishedAtLastWindow(s: System, junk: seq<seq<Byte>>)
    requires Inv(s) && s.ec.packets != [] && forall i :: 0 <= i < |junk| ==> |junk[i]| == CHUNK
    requires |junk| + s.ec.offset / CHUNK <= Windows(|s.ec.packets[0]|)
    ensures var t := AfterInterrupts(s, junk);
            var p := s.ec.packets[0];
            && Inv(t) && t.rx.edges == s.rx.edges + |junk|
            && (if |junk| + s.ec.offset / CHUNK == Windows(|p|)
                then t.pushed == s.pushed + [p] && !t.rx.active
                else t.pushed == s.pushed && t.ec.offset == s.ec.offset + |junk| * CHUNK)
    decreases |junk|
  {
    HeadPacket(s.ec.packets);
    WindowArithmetic(|s.ec.packets[0]|, s.ec.offset);
    if junk != [] {
      InterruptKeepsInv(s, junk[0]);
      if s.ec.offset + CHUNK < |s.ec.packets[0]| {
        FinishedAtLastWindow(Interrupt(s, junk[0]), junk[1..]);
      } else {
        assert junk[1..] == [];
      }
    }
  }

  /** Whatever is pushed is a frame the MP parser accepts, with the packet's own payload. */
  lemma PacketAccepted(p: seq<Byte>)
    requires Packet(p)
    ensures ParseMpFrame(p) == Some(Mp(p[0], p[4..]))
  {
    assert p[4..4 + (|p| - 4)] == p[4..];
  }

  /**
   An idle receiver moves the controller on exactly when the window starts with a
   valid header: a controller that waits for read-done shows a bad one forever.
   */
  lemma AdvancesExactlyOnValidHead(s: System, junk: seq<Byte>)
    requires Sized(s.rx) && !s.rx.line && !s.rx.active && Showing(s) && |junk| == CHUNK
    ensures Interrupt(s, junk).ec == (if CheckMpHead(Window(s.ec, junk)[..4]).Some? then Advance(s.ec) else s.ec)
    ensures CheckMpHead(Window(s.ec, junk)[..4]).None? ==> Interrupt(s, junk).pushed == s.pushed
  {
  }

  /**
   How a step ends, for a receiver in step with a packet of `total` bytes or idle. It fails exactly for a
   failed read, with the error of that read, or for a first window without a head, and then raises nothing.
   Else the line rises once: for a partial packet it is a pulse and assembly goes on, for a whole one it stays
   up. The length it tells is what has been copied.
   */
  lemma OutcomeExactly(rx: Rx, read: Read)
    requires Sized(rx) && ReadOk(read) && !rx.line
    requires rx.active ==> 0 < rx.copied < rx.total <= CAPACITY
    ensures var (t, out) := ReadStep(rx, read);
            var noHead := read.Shown? && !rx.active && CheckMpHead(read.bytes[..4]).None?;
            && (out.Error? <==> read.Failed? || noHead)
            && (out.Error? ==> out.code == (if read.Failed? then read.code else EBADMSG) && t.edges == rx.edges && !t.line)
            && (!out.Error? ==> t.edges == rx.edges + 1 && t.line == out.Complete?)
            && t.active == out.Partial?
            && (out.Partial? ==> out.len == t.copied == (if rx.active then rx.copied else 0) + CHUNK < t.total)
            && (out.Complete? ==>
                  && out.len == (if rx.active then rx.total else 4 + CheckMpHead(read.bytes[..4]).value)
                  && out.len - (if rx.active then rx.copied else 0) <= CHUNK)
  {
  }

  /** What the assembly fields of an active device may be without being in step: it then gives up or is done, unread. */
  lemma OutOfStep(rx: Rx, read: Read)
    requires Sized(rx) && ReadOk(read) && rx.active && !(0 < rx.copied < rx.total)
    ensures var (t, out) := ReadStep(rx, read);
            && t == rx.(active := false, total := 0, copied := 0)
            && out == if 0 < rx.total <= rx.copied <= CAPACITY then Complete(rx.total) else Error(EINVAL)
  {
  }

  // ----- failed reads ------------------------------------------------------------------

  /** An interrupt whose read fails. */
  function FailedInterrupt(s: System, code: int): System
    requires Sized(s.rx)
  {
    var (rx, pushed) := Handle(s.rx, s.pushed, Failed(code));
    System(rx, if rx.edges > s.rx.edges && s.ec.packets != [] then Advance(s.ec) else s.ec, pushed)
  }

  /**
   A failed read pushes nothing and gives no edge, but drops what was assembled. Receiver
   and controller stay in step exactly when nothing was being assembled; otherwise the next
   interrupt takes a window from the middle of the packet for a head, and the controller
   moves on exactly when it looks like one.
   */
  lemma FailedReadDropsPacket(s: System, code: int, junk: seq<Byte>)
    requires Inv(s) && s.ec.packets != [] && |junk| == CHUNK
    ensures var t := FailedInterrupt(s, code);
            && t.pushed == s.pushed && t.rx.edges == s.rx.edges && !t.rx.active && t.ec == s.ec && Showing(t)
            && (Inv(t) <==> !s.rx.active)
            && Interrupt(t, junk).ec == (if CheckMpHead(Window(s.ec, junk)[..4]).Some? then Advance(s.ec) else s.ec)
  {
    HeadPacket(s.ec.packets);
    AdvancesExactlyOnValidHead(FailedInterrupt(s, code), junk);
  }

  /** No window the controller could show from here starts like a head. */
  predicate NoHead(ec: Ec, junk: seq<seq<Byte>>)
    requires ec.packets != [] && ec.offset < |ec.packets[0]|
  {
    forall i | 0 <= i < |junk| :: |junk[i]| == CHUNK && CheckMpHead(Window(ec, junk[i])[..4]).None?
  }

  /** And if it does not look like one, receiver and controller stand still however many interrupts follow. */
  lemma {:induction false} StandsStill(s: System, junk: seq<seq<Byte>>)
    requires Showing(s) && !s.rx.active && !s.rx.line && NoHead(s.ec, junk)
    ensures var t := AfterInterrupts(s, junk); t.ec == s.ec && t.pushed == s.pushed && !t.rx.active
    decreases |junk|
  {
    if junk != [] {
      AdvancesExactlyOnValidHead(s, junk[0]);
      RefusedHead(s, junk[0]);
      StandsStill(Interrupt(s, junk[0]), junk[1..]);
    }
  }

  lemma RefusedHead(s: System, junk: seq<Byte>)
    requires Showing(s) && !s.rx.active && !s.rx.line && |junk| == CHUNK
    requires CheckMpHead(Window(s.ec, junk)[..4]).None?
    ensures var t := Interrupt(s, junk); Sized(t.rx) && !t.rx.active && !t.rx.line
  {
  }

  /** The rest of each window shown, or None for a read that fails. */
  type Tries = seq<Option<seq<Byte>>>

  predicate TriesOk(tries: Tries) {
    forall i | 0 <= i < |tries| :: tries[i].Some? ==> |tries[i].value| == CHUNK
  }

  function Try(s: System, junk: Option<seq<Byte>>, code: int): (t: System)
    requires Showing(s) && (junk.Some? ==> |junk.value| == CHUNK)
    ensures Sized(t.rx)
  {
    if junk.Some? then Interrupt(s, junk.value) else FailedInterrupt(s, code)
  }

  function AfterTries(s: System, tries: Tries, code: int): System
    requires Sized(s.rx) && TriesOk(tries)
    decreases |tries|
  {
    if tries == [] || !Showing(s) then s else AfterTries(Try(s, tries[0], code), tries[1..], code)
  }

  function Shows(tries: Tries): nat {
    if tries == [] then 0 else (if tries[0].Some? then 1 else 0) + Shows(tries[1..])
  }

  /** Reads fail only while no packet is being assembled. */
  predicate FailIdle(s: System, tries: Tries, code: int)
    requires Sized(s.rx) && TriesOk(tries)
    decreases |tries|
  {
    tries == [] || !Showing(s) ||
    ((tries[0].None? ==> !s.rx.active) && FailIdle(Try(s, tries[0], code), tries[1..], code))
  }

  /** Failed reads between packets are harmless: packets are conserved, one edge and window per good read. */
  lemma {:induction false} IdleFailuresHarmless(s: System, tries: Tries, code: int)
    requires Inv(s) && Shows(tries) <= Left(s.ec) && TriesOk(tries) && FailIdle(s, tries, code)
    ensures var t := AfterTries(s, tries, code);
            && Inv(t) && t.pushed + t.ec.packets == s.pushed + s.ec.packets
            && t.rx.edges == s.rx.edges + Shows(tries) && Left(t.ec) == Left(s.ec) - Shows(tries)
    decreases |tries|
  {
    LeftPositive(s);
    if tries != [] && s.ec.packets != [] {
      HeadPacket(s.ec.packets);
      if tries[0].Some? {
        InterruptKeepsInv(s, tries[0].value);
      } else {
        FailedReadDropsPacket(s, code, seq(CHUNK, _ => 0));
      }
      IdleFailuresHarmless(Try(s, tries[0], code), tries[1..], code);
    }
  }
}
