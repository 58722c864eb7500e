/**
 The command path above the framings: writing the mailbox with a running sequence
 number, and exchanging a command for a validated answer with retries.
 */
module EspiLink {
  import opened Options
  import opened Bytes
  import opened EspiProto

  const ETIMEDOUT := -110

  const READ_CAPACITY := 0x1000

  /** `room` is the capacity of the caller's response buffer, if it passed one. */
  datatype Request = Request(cmd: Byte, payload: seq<Byte>, expected: Byte, requireChecksum: bool,
                             tries: nat, room: Option<nat>)

  /** How one exchange goes: it fails before or in the mailbox write, in the read, or it delivers some bytes. */
  datatype Turn = NoMemory | WriteFails | ReadFails | Delivers(bytes: seq<Byte>)

  function TurnAt(turns: seq<Turn>, k: nat): Turn {
    if k < |turns| then turns[k] else ReadFails
  }

  /** The bytes of a reply that are looked at. */
  function Seen(bytes: seq<Byte>): seq<Byte> {
    if |bytes| <= READ_CAPACITY then bytes else bytes[..READ_CAPACITY]
  }

  /** The validated answer in a reply, if it is one this request is waiting for. */
  function Answer(req: Request, turn: Turn): Option<Goodix> {
    if !turn.Delivers? then None
    else
      var mp := ParseMpFrame(Seen(turn.bytes));
      if mp.None? then None
      else
        var p := ParseGoodixBody(mp.value.payload);
        if p.None? then None
        else if req.requireChecksum && !p.value.checksumOk then None
        else if p.value.cmd != req.expected then None
        else p
  }

  /** The exchange delivers this payload: framed, of the expected command, and with a good checksum where that is asked for. */
  predicate Carries(req: Request, turn: Turn, payload: seq<Byte>) {
    && turn.Delivers?
    && var looked := if |turn.bytes| > 0x1000 then turn.bytes[..0x1000] else turn.bytes;
       var mp := ParseMpFrame(looked);
       && mp.Some?
       && var body := ParseGoodixBody(mp.value.payload);
          && body.Some? && body.value.cmd == req.expected && body.value.payload == payload
          && (req.requireChecksum ==> body.value.checksumOk)
  }

  /** An answer is what the exchange carries, and there is none exactly when it carries nothing. */
  lemma AnswerExactly(req: Request, turn: Turn, payload: seq<Byte>)
    ensures Carries(req, turn, payload) <==> Answer(req, turn).Some? && Answer(req, turn).value.payload == payload
  {
  }

  function Attempts(req: Request): nat { if req.tries == 0 then 1 else req.tries }

  /** What each attempt would make of its reply. */
  function Answers(req: Request, turns: seq<Turn>, cursor: nat): seq<Option<Goodix>> {
    seq(Attempts(req), j requires 0 <= j < Attempts(req) => Answer(req, TurnAt(turns, cursor + j)))
  }

  /** `k` is the first attempt that is answered, or their number if none is. */
  ghost predicate FirstAnswered(answers: seq<Option<Goodix>>, k: nat) {
    && k <= |answers|
    && (k < |answers| ==> answers[k].Some?)
    && forall j :: 0 <= j < k ==> answers[j].None?
  }

  /** What a request returns when attempt `k` is the first answered one. */
  predicate Outcome(req: Request, answers: seq<Option<Goodix>>, k: nat, r: int, response: Option<seq<Byte>>)
    requires k <= |answers|
  {
    if k == |answers| then r == ETIMEDOUT
    else
      && answers[k].Some?
      && (if req.room.Some? && |answers[k].value.payload| > req.room.value then r == EMSGSIZE
          else r == 0 && response == Some(answers[k].value.payload))
  }

  /** The sequence number after n exchanges: each but those without memory takes a new one. */
  function SeqAfter(seq16: nat, turns: seq<Turn>, cursor: nat, n: nat): nat {
    if n == 0 then seq16
    else SeqAfter(seq16, turns, cursor, n - 1) + if TurnAt(turns, cursor + n - 1).NoMemory? then 0 else 1
  }

  /** The messages n exchanges leave in the mailbox: one copy of the frame per successful write. */
  function Sent(seq16: nat, turns: seq<Turn>, cursor: nat, n: nat, frame: seq<Byte>): seq<seq<Byte>> {
    if n == 0 then []
    else
      var turn := TurnAt(turns, cursor + n - 1);
      Sent(seq16, turns, cursor, n - 1, frame) +
      if turn.NoMemory? || turn.WriteFails? then [] else [Wrapped(SeqAfter(seq16, turns, cursor, n), frame)]
  }

  lemma SentOneMore(seq16: nat, turns: seq<Turn>, from: nat, t: nat, frame: seq<Byte>)
    ensures SeqAfter(SeqAfter(seq16, turns, from, t), turns, from + t, 1) == SeqAfter(seq16, turns, from, t + 1)
    ensures Sent(seq16, turns, from, t, frame) + Sent(SeqAfter(seq16, turns, from, t), turns, from + t, 1, frame) ==
            Sent(seq16, turns, from, t + 1, frame)
  {
    var now := SeqAfter(seq16, turns, from, t);
    assert SeqAfter(now, turns, from + t, 0) == now && Sent(now, turns, from + t, 0, frame) == [];
  }

  /** The number of attempts made when attempt `k` settles a request. */
  function Used(answers: seq<Option<Goodix>>, k: nat): nat { if k < |answers| then k + 1 else k }

  /** Nothing goes wrong before the read: the copies sent are numbered consecutively. */
  lemma {:induction false} SentConsecutively(seq16: nat, turns: seq<Turn>, from: nat, n: nat, frame: seq<Byte>, i: nat)
    requires forall k | from <= k < from + n :: !TurnAt(turns, k).NoMemory? && !TurnAt(turns, k).WriteFails?
    requires i < n
    ensures SeqAfter(seq16, turns, from, n) == seq16 + n
    ensures |Sent(seq16, turns, from, n, frame)| == n
    ensures Sent(seq16, turns, from, n, frame)[i] == Wrapped(seq16 + i + 1, frame)
  {
    assert !TurnAt(turns, from + (n - 1)).NoMemory? && !TurnAt(turns, from + (n - 1)).WriteFails?;
    if n > 1 { SentConsecutively(seq16, turns, from, n - 1, frame, if i < n - 1 then i else 0); }
  }

  predicate Fits(frame: seq<Byte>) { 8 + |frame| + Padding(|frame|) <= TX_BUFFER_SIZE }

  /** The first k exchanges from the cursor on carry nothing for this request. */
  ghost predicate SilentUntil(req: Request, turns: seq<Turn>, cursor: nat, k: nat) {
    forall i, p | cursor <= i < cursor + k :: !Carries(req, TurnAt(turns, i), p)
  }

  lemma SilentBefore(req: Request, turns: seq<Turn>, cursor: nat, k: nat)
    requires FirstAnswered(Answers(req, turns, cursor), k)
    ensures SilentUntil(req, turns, cursor, k)
  {
    var answers := Answers(req, turns, cursor);
    forall i, p | cursor <= i < cursor + k ensures !Carries(req, TurnAt(turns, i), p) {
      assert answers[i - cursor].None?;
      AnswerExactly(req, TurnAt(turns, i), p);
    }
  }

  lemma OutcomeMeans(req: Request, turns: seq<Turn>, cursor: nat, k: nat, r: int, response: Option<seq<Byte>>)
    requires var answers := Answers(req, turns, cursor);
             FirstAnswered(answers, k) && Outcome(req, answers, k, r, response)
    ensures r == 0 ==> response.Some? && Carries(req, TurnAt(turns, cursor + k), response.value)
    ensures r == EMSGSIZE ==>
              req.room.Some? && exists p :: |p| > req.room.value && Carries(req, TurnAt(turns, cursor + k), p)
    ensures r == ETIMEDOUT ==> k == Attempts(req)
  {
    var answers := Answers(req, turns, cursor);
    if k < |answers| {
      AnswerExactly(req, TurnAt(turns, cursor + k), answers[k].value.payload);
    }
  }

  class Link {
    const turns: seq<Turn>        // how successive exchanges go
    var cursor: nat
    var seq16: nat
    var mailbox: seq<seq<Byte>>   // every message written, in order

    constructor (turns: seq<Turn>)
      ensures seq16 == 0x8881 && mailbox == [] && cursor == 0 && this.turns == turns
    {
      seq16, mailbox, cursor := 0x8881, [], 0;
      this.turns := turns;
    }

    method Write(frame: seq<Byte>) returns (r: int)
      modifies this`seq16, this`mailbox
      ensures var turn := TurnAt(turns, cursor);
              r == if |frame| == 0 then EINVAL else if !Fits(frame) then EOVERFLOW
                   else if turn.NoMemory? then ENOMEM else if turn.WriteFails? then EIO else 0
      ensures r != 0 ==> mailbox == old(mailbox)
      ensures r == 0 ==> mailbox == old(mailbox) + [Wrapped(seq16, frame)]
      ensures seq16 == old(seq16) + if r == 0 || r == EIO then 1 else 0
    {
      if |frame| == 0 { return EINVAL; }
      var pad := Padding(|frame|);
      var txLen := 8 + |frame| + pad;
      if txLen > TX_BUFFER_SIZE { return EOVERFLOW; }
      if TurnAt(turns, cursor).NoMemory? { return ENOMEM; }
      seq16 := seq16 + 1;
      var tx := BuildMessage(frame, seq16);
      PaddingAligns(|frame|);
      if txLen % ALIGN != 0 || TurnAt(turns, cursor).WriteFails? { return EIO; }
      mailbox := mailbox + [tx];
      return 0;
    }

    /** The buffer that is written: zeroed, then header, sequence number and frame stored. */
    method BuildMessage(frame: seq<Byte>, number: nat) returns (message: seq<Byte>)
      ensures message == Wrapped(number, frame)
    {
      var tx := new Byte[8 + |frame| + Padding(|frame|)](_ => 0);
      tx[0] := WRAPPER_MAGIC;
      tx[1] := Low(|frame|);
      tx[2] := High(|frame|);
      tx[3] := AddBytes(tx[0], tx[1], tx[2]);
      tx[4] := Low(number);
      tx[5] := High(number);
      ghost var head := Head(WRAPPER_MAGIC, |frame|) + Sequence(number);
      assert tx[..8] == head;
      assert tx[8 + |frame|..] == Zeros(Padding(|frame|));
      CopyInto(frame, tx, 8);
      assert tx[..] == head + frame + Zeros(Padding(|frame|));
      message := tx[..];
    }

    /** gxfp_espi_xfer(): nothing is read when the command could not be written. */
    method Exchange(frame: seq<Byte>) returns (turn: Turn)
      requires |frame| > 0
      modifies this
      ensures if Fits(frame) then
                && turn == TurnAt(turns, old(cursor)) && cursor == old(cursor) + 1
                && seq16 == SeqAfter(old(seq16), turns, old(cursor), 1)
                && mailbox == old(mailbox) + Sent(old(seq16), turns, old(cursor), 1, frame)
              else
                seq16 == old(seq16) && mailbox == old(mailbox) && cursor == old(cursor) && turn == WriteFails
    {
      var r := Write(frame);
      assert SeqAfter(old(seq16), turns, cursor, 0) == old(seq16) && Sent(old(seq16), turns, cursor, 0, frame) == [];
      if r == EOVERFLOW { return WriteFails; }
      turn := TurnAt(turns, cursor);
      cursor := cursor + 1;
    }

    /** The two builders of gxfp_xfer(), each into a buffer of the mailbox size. */
    method BuildCommand(req: Request) returns (r: int, frame: seq<Byte>)
      ensures r < 0 <==> |req.payload| > 504
      ensures r < 0 ==> r == EOVERFLOW || r == EMSGSIZE
      ensures r >= 0 ==> frame == MpFrame(TYPE_A, Body(req.cmd, req.payload))
    {
      var body := new Byte[TX_BUFFER_SIZE](_ => 0);
      var bodyLen := GoodixBuildFrame(req.cmd, req.payload, body);
      if bodyLen < 0 { return bodyLen, []; }
      var tx := new Byte[TX_BUFFER_SIZE](_ => 0);
      r := MpBuildFrame(TYPE_A, body[..bodyLen], tx);
      if r < 0 { return r, []; }
      frame := tx[..r];
    }

    /** The retry loop of gxfp_xfer(); `k` is the attempt that settles it. */
    method Attempt(req: Request, frame: seq<Byte>) returns (r: int, response: Option<seq<Byte>>, ghost k: nat)
      requires |frame| > 0
      modifies this
      // A frame the mailbox cannot hold is reported as a timeout; nothing is sent.
      ensures !Fits(frame) ==> r == ETIMEDOUT && mailbox == old(mailbox)
      ensures Fits(frame) ==>
                var answers := Answers(req, turns, old(cursor));
                && FirstAnswered(answers, k) && Outcome(req, answers, k, r, response)
                && mailbox == old(mailbox) + Sent(old(seq16), turns, old(cursor), Used(answers, k), frame)
    {
      response := None;
      ghost var answers, seq0, from := Answers(req, turns, cursor), seq16, cursor;
      var t := 0;
      while t < Attempts(req)
        invariant 0 <= t <= Attempts(req)
        invariant !Fits(frame) ==> mailbox == old(mailbox)
        invariant Fits(frame) ==> seq16 == SeqAfter(seq0, turns, from, t) && cursor == from + t
        invariant Fits(frame) ==> mailbox == old(mailbox) + Sent(seq0, turns, from, t, frame)
        invariant Fits(frame) ==> forall j :: 0 <= j < t ==> answers[j].None?
      {
        SentOneMore(seq0, turns, from, t, frame);
        var turn := Exchange(frame);
        var answer := Answer(req, turn);
        assert Fits(frame) ==> answer == answers[t];
        if answer.Some? {
          if req.room.Some? && |answer.value.payload| > req.room.value { return EMSGSIZE, None, t; }
          return 0, Some(answer.value.payload), t;
        }
        t := t + 1;
      }
      return ETIMEDOUT, None, t;
    }

    /**
     gxfp_xfer(). A success is the payload that the first exchange to carry one carries, and a
     timeout means that none of them, at least one, carries any.
     */
    method Transfer(req: Request) returns (r: int, response: Option<seq<Byte>>, ghost k: nat)
      modifies this
      ensures r == 0 ==> response.Some? && Carries(req, TurnAt(turns, old(cursor) + k), response.value)
      ensures r == 0 || (r == EMSGSIZE && |req.payload| <= 496) ==> SilentUntil(req, turns, old(cursor), k)
      ensures r == EMSGSIZE && |req.payload| <= 496 ==>
                req.room.Some? && exists p :: |p| > req.room.value && Carries(req, TurnAt(turns, old(cursor) + k), p)
      ensures r == ETIMEDOUT && |req.payload| <= 496 ==>
                k == (if req.tries == 0 then 1 else req.tries) && SilentUntil(req, turns, old(cursor), k)
      ensures req.room == Some(0) ==> r == EINVAL && mailbox == old(mailbox)
      ensures req.room != Some(0) && |req.payload| > 504 ==>
                (r == EOVERFLOW || r == EMSGSIZE) && mailbox == old(mailbox)
      ensures req.room != Some(0) && 496 < |req.payload| <= 504 ==> r == ETIMEDOUT && mailbox == old(mailbox)
      ensures req.room != Some(0) && |req.payload| <= 496 ==>
                var answers := Answers(req, turns, old(cursor));
                && FirstAnswered(answers, k) && Outcome(req, answers, k, r, response)
                && mailbox == old(mailbox) + Sent(old(seq16), turns, old(cursor), Used(answers, k),
                                                  MpFrame(TYPE_A, Body(req.cmd, req.payload)))
    {
      k := 0;
      if req.room == Some(0) { return EINVAL, None, 0; }
      var built, frame := BuildCommand(req);
      if built < 0 { return built, None, 0; }
      FitsExactly(0, req.cmd, req.payload);
      assert |Wire(0, req.cmd, req.payload)| == 8 + |frame| + Padding(|frame|);
      r, response, k := Attempt(req, frame);
      if |req.payload| <= 496 {
        SilentBefore(req, turns, old(cursor), k);
        OutcomeMeans(req, turns, old(cursor), k, r, response);
      }
    }
  }
}
