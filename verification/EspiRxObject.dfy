/**
 The receiving side of the device as the object the interrupt thread updates in
 place: the receive buffer is an array, and each step is proved to have the
 effect that module EspiRx reasons about.
 */
module EspiRxObject {
  import opened Bytes
  import opened EspiProto
  import M = EspiRx

  class Receiver {
    const rxBuf: array<Byte>
    var active: bool
    var total: nat
    var copied: nat
    var line: bool
    var edges: nat
    var pushed: seq<seq<Byte>>   // packets handed to the receive queue

    function View(): M.Rx
      reads this, rxBuf
    {
      M.Rx(active, total, copied, rxBuf[..], line, edges)
    }

    constructor ()
      ensures rxBuf.Length == M.CAPACITY && fresh(rxBuf)
      ensures !active && !line && total == copied == edges == 0 && pushed == []
    {
      rxBuf := new Byte[M.CAPACITY](_ => 0);
      active, total, copied, line, edges, pushed := false, 0, 0, false, 0, [];
    }

    method SetReadDone(value: bool)
      modifies this`line, this`edges
      ensures View() == M.SetReadDone(old(View()), value)
    {
      if value && !line { edges := edges + 1; }
      line := value;
    }

    method Reset()
      modifies this`active, this`total, this`copied
      ensures View() == M.Reset(old(View()))
    {
      active, total, copied := false, 0, 0;
    }

    method ReadStep(read: M.Read) returns (out: M.Outcome)
      requires rxBuf.Length == M.CAPACITY && M.ReadOk(read)
      modifies this`active, this`total, this`copied, this`line, this`edges, rxBuf
      ensures (View(), out) == M.ReadStep(old(View()), read)
    {
      if !active { out := ReadFirst(read); } else { out := ReadLater(read); }
    }

    method ReadFirst(read: M.Read) returns (out: M.Outcome)
      requires rxBuf.Length == M.CAPACITY && M.ReadOk(read)
      modifies this`active, this`total, this`copied, this`line, this`edges, rxBuf
      ensures (View(), out) == M.FirstWindow(old(View()), read)
    {
      if read.Failed? { Reset(); return M.Error(read.code); }
      CopyInto(read.bytes, rxBuf, 0);
      assert rxBuf[..] == M.Paste(old(rxBuf[..]), 0, read.bytes);
      assert rxBuf[..4] == read.bytes[..4];
      var head := CheckMpHead(rxBuf[..4]);
      if head.None? || 4 + head.value > M.CAPACITY {
        Reset();
        return M.Error(if head.None? then M.EBADMSG else EMSGSIZE);
      }
      var size := 4 + head.value;
      total, copied, active := size, M.Min(size, M.CHUNK), true;
      if copied >= total {
        SetReadDone(true);
        Reset();
        return M.Complete(size);
      }
      SetReadDone(true);
      SetReadDone(false);
      return M.Partial(copied);
    }

    method ReadLater(read: M.Read) returns (out: M.Outcome)
      requires rxBuf.Length == M.CAPACITY && M.ReadOk(read)
      modifies this`active, this`total, this`copied, this`line, this`edges, rxBuf
      ensures (View(), out) == M.LaterWindow(old(View()), read)
    {
      if total == 0 || copied == 0 || copied > M.CAPACITY { Reset(); return M.Error(EINVAL); }
      var remain := if copied < total then total - copied else 0;
      var chunk := M.Min(remain, M.CHUNK);
      if chunk == 0 {
        out := M.Complete(total);
        Reset();
        return;
      }
      if copied + chunk > M.CAPACITY { Reset(); return M.Error(EMSGSIZE); }
      if read.Failed? { Reset(); return M.Error(read.code); }
      CopyInto(read.bytes[..chunk], rxBuf, copied);
      assert rxBuf[..] == M.Paste(old(rxBuf[..]), copied, read.bytes[..chunk]);
      copied := copied + chunk;
      if copied < total {
        SetReadDone(true);
        SetReadDone(false);
        return M.Partial(copied);
      }
      SetReadDone(true);
      out := M.Complete(total);
      Reset();
    }

    /** gxfp_irq_thread(): one window, then the line is lowered and a finished packet queued. */
    method Interrupt(read: M.Read)
      requires rxBuf.Length == M.CAPACITY && M.ReadOk(read)
      modifies this, rxBuf
      ensures (View(), pushed) == M.Handle(old(View()), old(pushed), read)
    {
      var out := ReadStep(read);
      var done := out.Complete? && out.len != 0 && out.len <= rxBuf.Length;
      SetReadDone(false);
      if done { pushed := pushed + [rxBuf[..out.len]]; }
    }
  }
}
