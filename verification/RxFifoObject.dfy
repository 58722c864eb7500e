/**
 The receive queue as the object the kernel code updates in place. Each method is
 one critical section of the spin lock and is proved to be the step of that name in
 module RxFifo; Read() is a reader that is not disturbed between its sections.
 */
module RxFifoObject {
  import opened Bytes
  import opened EspiProto
  import M = RxFifo

  class RxQueue {
    var inited: bool
    var fifo: seq<Byte>
    var holder: M.Holder
    var accepted: seq<seq<Byte>>
    var popped: seq<seq<Byte>>
    var results: seq<M.Result>

    function View(): M.Queue
      reads this
    {
      M.Queue(inited, fifo, holder, accepted, popped, results)
    }

    constructor ()
      ensures View() == M.Init()
    {
      inited, fifo, holder, accepted, popped, results := true, [], M.NoOne, [], [], [];
    }

    method Finish(r: M.Result)
      modifies this`holder, this`results
      ensures View() == M.Return(old(View()), r)
    {
      results := results + [r];
      holder := M.NoOne;
    }

    method Push(buf: seq<Byte>, stamp: seq<Byte>)
      requires |stamp| == 8
      modifies this`fifo, this`accepted
      ensures View() == M.Push(old(View()), buf, stamp)
    {
      var mp := ParseMpFrame(buf);
      if mp.None? || !inited { return; }
      var hdr := M.TapHeader(mp.value, stamp);
      var need := |hdr| + |mp.value.payload|;
      if M.CAPACITY - |fifo| < need { return; }
      fifo := fifo + hdr;
      fifo := fifo + mp.value.payload;
      accepted := accepted + [hdr + mp.value.payload];
    }

    method WaitNonempty(nonblock: bool, signal: bool)
      requires holder.Waiting?
      modifies this`holder, this`results
      ensures View() == M.WaitNonempty(old(View()), nonblock, signal)
    {
      if !inited { Finish(M.Code(M.ENODEV)); return; }
      if fifo != [] { holder := M.Ready(holder.count); return; }
      if nonblock { Finish(M.Code(M.EAGAIN)); return; }
      if signal { Finish(M.Code(M.EINTR)); }
    }

    method PeekNeed()
      requires holder.Ready?
      modifies this`holder, this`results
      ensures View() == M.PeekNeed(old(View()))
    {
      if !inited { Finish(M.Code(M.ENODEV)); return; }
      if |fifo| < M.HEADER { Finish(M.Code(EIO)); return; }
      var need := M.Need(fifo);
      if |fifo| < need { Finish(M.Code(EIO)); return; }
      if holder.count < need { Finish(M.Code(EMSGSIZE)); return; }
      holder := M.Peeked(need);
    }

    method PopRecord(memory: bool, copied: bool)
      requires holder.Peeked?
      modifies this`fifo, this`holder, this`popped, this`results
      ensures View() == M.PopRecord(old(View()), memory, copied)
    {
      var need := holder.need;
      if !memory { Finish(M.Code(ENOMEM)); return; }
      if !inited { Finish(M.Code(M.ENODEV)); return; }
      var n := if need <= |fifo| then need else |fifo|;
      var record := fifo[..n];
      fifo := fifo[n..];
      popped := popped + [record];
      if n != need { Finish(M.Code(EIO)); return; }
      if !copied { Finish(M.Code(M.EFAULT)); return; }
      Finish(M.Data(record));
    }

    method Flush()
      requires holder.NoOne?
      modifies this`fifo, this`accepted, this`popped
      ensures View() == M.Flush(old(View()))
    {
      if !inited { return; }
      fifo, accepted, popped := [], [], [];
    }

    /** gxfp_uapi_read() without a competing step: the oldest record, or the reason there is none. */
    method Read(count: nat) returns (r: M.Result)
      requires M.Inv(View()) && holder.NoOne?
      modifies this
      ensures M.Inv(View()) && accepted == old(accepted) && inited == old(inited)
      ensures var queued := old(M.Queued(View()));
              if !inited then r == M.Code(M.ENODEV) && popped == old(popped)
              else if count == 0 then r == M.Code(0) && popped == old(popped)
              else if queued == [] then r == M.Code(M.EAGAIN) && popped == old(popped)
              else if count < |queued[0]| then r == M.Code(EMSGSIZE) && popped == old(popped)
              else r == M.Data(queued[0]) && popped == old(popped) + [queued[0]]
    {
      if !inited { return M.Code(M.ENODEV); }
      if count == 0 { return M.Code(0); }
      r := ReadLocked(count);
    }

    /** The part of a read that holds the mutex. */
    method ReadLocked(count: nat) returns (r: M.Result)
      requires M.Inv(View()) && holder.NoOne? && inited && count > 0
      modifies this
      ensures M.Inv(View()) && accepted == old(accepted) && inited
      ensures var queued := old(M.Queued(View()));
              if queued == [] then r == M.Code(M.EAGAIN) && popped == old(popped)
              else if count < |queued[0]| then r == M.Code(EMSGSIZE) && popped == old(popped)
              else r == M.Data(queued[0]) && popped == old(popped) + [queued[0]]
    {
      holder := M.Waiting(count);
      M.StepKeepsInv(View(), M.Waits(true, false));
      if M.Queued(View()) != [] { M.HeadRecord(View()); }
      WaitNonempty(true, false);
      if holder.Ready? {
        M.StepKeepsInv(View(), M.Peeks);
        PeekNeed();
        if holder.Peeked? {
          M.StepKeepsInv(View(), M.Pops(true, true));
          PopRecord(true, true);
        }
      }
      r := results[|results| - 1];
    }
  }
}
