/**
 The three nested framings of a command sent to the sensor: the Goodix body with
 its protocol checksum, the MP frame around it, and the eSPI mailbox wrapper.
 */
module EspiProto {
  import opened Options
  import opened Bytes

  const EINVAL := -22
  const EIO := -5
  const ENOMEM := -12
  const EOVERFLOW := -75
  const EMSGSIZE := -90

  const TX_BUFFER_SIZE := 0x200
  const MP_LEN_MAX := 0x6c00
  const GOODIX_PAYLOAD_MAX := 0xFF00
  const TYPE_A := 0xA
  const WRAPPER_MAGIC := 0xF0
  const ALIGN := 8

  // ----- what the frames look like ------------------------------------------

  /** What is missing to 0xAA modulo 256. */
  function Complement(sum: nat): Byte { Low(0xaa + 256 - Low(sum)) }

  lemma ComplementCompletes(sum: nat, x: Byte)
    ensures Complement(sum) == x <==> (sum + x) % 256 == 0xaa
  {
    LowIsModulo(sum);
    LowIsModulo(0xaa + 256 - Low(sum));
  }

  lemma RemaindersDiffer(n: nat, x: Byte, y: Byte)
    requires x != y
    ensures (n + x) % 256 != (n + y) % 256
  {
  }

  lemma ComplementTellsBytesApart(rest: nat, x: Byte, y: Byte)
    requires x != y
    ensures Complement(rest + x) != Complement(rest + y)
  {
    var c := Complement(rest + y);
    ComplementCompletes(rest + x, c);
    ComplementCompletes(rest + y, c);
    RemaindersDiffer(rest + c, x, y);
  }

  /** The checksum byte: it brings the sum of the whole body to 0xAA modulo 256. */
  function Checksum(cmd: Byte, declLen: nat, payload: seq<Byte>): Byte {
    Complement(cmd + Low(declLen) + High(declLen) + Sum(payload))
  }

  function Body(cmd: Byte, payload: seq<Byte>): (body: seq<Byte>)
    ensures |body| == |payload| + 4
  {
    var declLen := 1 + |payload|;
    [cmd, Low(declLen), High(declLen)] + payload + [Checksum(cmd, declLen, payload)]
  }

  predicate MpType(t: nat) { t == 0xA || t == 0xB || t == 0xC }

  function MpFrame(mpType: nat, payload: seq<Byte>): (frame: seq<Byte>)
    requires MpType(mpType)
    ensures |frame| == |payload| + 4
  {
    Head(16 * mpType, |payload|) + payload
  }

  function Padding(len: nat): nat { (ALIGN - len % ALIGN) % ALIGN }

  function Zeros(n: nat): seq<Byte> { seq(n, i => 0) }

  function Sequence(seq16: nat): seq<Byte> { [Low(seq16), High(seq16), 0, 0] }

  function Wrapped(seq16: nat, frame: seq<Byte>): (wire: seq<Byte>)
    ensures |wire| == 8 + |frame| + Padding(|frame|)
  {
    Head(WRAPPER_MAGIC, |frame|) + Sequence(seq16) + frame + Zeros(Padding(|frame|))
  }

  // ----- parsers --------------------------------------------------------------

  datatype Goodix = Goodix(cmd: Byte, payload: seq<Byte>, checksumOk: bool)

  function ParseGoodixBody(buf: seq<Byte>): Option<Goodix> {
    if |buf| < 4 then None
    else
      var declLen := Le16(buf[1], buf[2]);
      if declLen < 1 then None
      else if 3 + declLen > |buf| then None
      else
        var payload := buf[3..3 + (declLen - 1)];
        Some(Goodix(buf[0], payload, Checksum(buf[0], declLen, payload) == buf[3 + (declLen - 1)]))
  }

  function CheckMpHead(buf: seq<Byte>): Option<nat> {
    if |buf| < 4 then None
    else if !MpType(buf[0] / 16) then None
    else
      var len := Le16(buf[1], buf[2]);
      if len >= MP_LEN_MAX then None
      else if !HeadOk(buf) then None
      else Some(len)
  }

  /** Which packet heads are accepted: the type 0xA, 0xB or 0xC, a length below 0x6c00 and a fitting check byte. */
  lemma HeadAcceptedExactly(h: seq<Byte>, len: nat)
    requires |h| == 4
    ensures CheckMpHead(h) == Some(len) <==>
            && 0xa0 <= h[0] < 0xd0 && IsLe16(h, 1, len) && len < 0x6c00
            && h[3] as int == (h[0] as int + h[1] as int + h[2] as int) % 256
  {
    LowIsModulo(h[0] as int + h[1] as int + h[2] as int);
  }

  datatype Mp = Mp(flags: Byte, payload: seq<Byte>)

  function ParseMpFrame(buf: seq<Byte>): Option<Mp> {
    var head := CheckMpHead(if |buf| < 4 then buf else buf[..4]);
    if head.None? || 4 + head.value > |buf| then None
    else Some(Mp(buf[0], buf[4..4 + head.value]))
  }

  /** The embedded controller's reading of the mailbox: what the wrapper fields say. */
  function Unwrap(wire: seq<Byte>): Option<seq<Byte>> {
    if |wire| < 8 || wire[0] != WRAPPER_MAGIC || !HeadOk(wire) then None
    else
      var len := Le16(wire[1], wire[2]);
      if 8 + len > |wire| then None else Some(wire[8..8 + len])
  }

  /** All three layers, accepting only what passes every check. */
  function Decode(wire: seq<Byte>): Option<(Byte, seq<Byte>)> {
    var frame := Unwrap(wire);
    if frame.None? then None
    else
      var mp := ParseMpFrame(frame.value);
      if mp.None? then None
      else
        Accepted(ParseGoodixBody(mp.value.payload))
  }

  function Accepted(body: Option<Goodix>): Option<(Byte, seq<Byte>)> {
    if body.None? || !body.value.checksumOk then None else Some((body.value.cmd, body.value.payload))
  }

  // ----- builders, in place -----------------------------------------------------

  method ProtoChecksum(cmd: Byte, declLen: nat, payload: seq<Byte>) returns (ck: Byte)
    ensures ck == Checksum(cmd, declLen, payload)
  {
    var sum := cmd + Low(declLen) + High(declLen);
    for i := 0 to |payload|
      invariant sum == cmd + Low(declLen) + High(declLen) + Sum(payload[..i])
    {
      assert payload[..i + 1][..i] == payload[..i];
      sum := sum + payload[i];
    }
    assert payload[..|payload|] == payload;
    ck := Complement(sum);
  }

  /** Copies `src` into `dst` at `at`, leaving the rest of `dst` alone. */
  method CopyInto(src: seq<Byte>, dst: array<Byte>, at: nat)
    requires at + |src| <= dst.Length
    modifies dst
    ensures dst[..] == old(dst[..at]) + src + old(dst[at + |src|..])
  {
    for i := 0 to |src|
      invariant dst[..] == old(dst[..at]) + src[..i] + old(dst[at + i..])
    {
      dst[at + i] := src[i];
    }
    assert src[..|src|] == src;
  }

  method GoodixBuildFrame(cmd: Byte, payload: seq<Byte>, out: array<Byte>) returns (r: int)
    modifies out
    ensures out.Length < 4 ==> r == EINVAL
    ensures out.Length >= 4 && |payload| > GOODIX_PAYLOAD_MAX ==> r == EOVERFLOW
    ensures out.Length >= 4 && |payload| <= GOODIX_PAYLOAD_MAX ==>
              r == if |payload| + 4 > out.Length then EMSGSIZE else |payload| + 4
    ensures r < 0 ==> out[..] == old(out[..])
    ensures r >= 0 ==> 0 <= r <= out.Length && out[..r] == Body(cmd, payload) && out[r..] == old(out[r..])
  {
    if out.Length < 4 { return EINVAL; }
    if |payload| > GOODIX_PAYLOAD_MAX { return EOVERFLOW; }
    var declLen := 1 + |payload|;
    var total := 1 + 2 + |payload| + 1;
    if total > out.Length { return EMSGSIZE; }
    out[0] := cmd;
    out[1] := Low(declLen);
    out[2] := High(declLen);
    CopyInto(payload, out, 3);
    var ck := ProtoChecksum(cmd, declLen, payload);
    out[3 + |payload|] := ck;
    assert out[..total] == Body(cmd, payload);
    return total;
  }

  method MpBuildFrame(mpType: nat, payload: seq<Byte>, out: array<Byte>) returns (r: int)
    modifies out
    ensures out.Length < 4 ==> r == EINVAL
    ensures out.Length >= 4 && |payload| > MP_LEN_MAX ==> r == EOVERFLOW
    ensures out.Length >= 4 && |payload| <= MP_LEN_MAX && !MpType(mpType) ==> r == EINVAL
    ensures out.Length >= 4 && |payload| <= MP_LEN_MAX && MpType(mpType) ==>
              r == if |payload| + 4 > out.Length then EMSGSIZE else |payload| + 4
    ensures r < 0 ==> out[..] == old(out[..])
    ensures r >= 0 ==> 0 <= r <= out.Length && MpType(mpType) && out[..r] == MpFrame(mpType, payload) &&
                       out[r..] == old(out[r..])
  {
    if out.Length < 4 { return EINVAL; }
    if |payload| > MP_LEN_MAX { return EOVERFLOW; }
    if !MpType(mpType) { return EINVAL; }
    var total := 4 + |payload|;
    if total > out.Length { return EMSGSIZE; }
    out[0] := 16 * mpType;
    out[1] := Low(|payload|);
    out[2] := High(|payload|);
    out[3] := AddBytes(out[0], out[1], out[2]);
    CopyInto(payload, out, 4);
    assert out[..total] == MpFrame(mpType, payload);
    return total;
  }

  // ----- round trips ------------------------------------------------------------

  lemma BodySum(cmd: Byte, payload: seq<Byte>)
    ensures Sum(Body(cmd, payload)) % 256 == 0xaa
  {
    var declLen := 1 + |payload|;
    var low, high := Low(declLen), High(declLen);
    var ck := Checksum(cmd, declLen, payload);
    assert Body(cmd, payload) == [cmd] + [low] + [high] + payload + [ck];
    SumAppend([cmd] + [low] + [high] + payload, [ck]);
    SumAppend([cmd] + [low] + [high], payload);
    SumAppend([cmd] + [low], [high]);
    SumAppend([cmd], [low]);
    SumOne(cmd); SumOne(low); SumOne(high); SumOne(ck);
    ComplementCompletes(cmd + low + high + Sum(payload), ck);
  }

  /** The parser looks at the declared length only; what follows the checksum is ignored. */
  lemma ParseBodyReads(cmd: Byte, low: Byte, high: Byte, payload: seq<Byte>, ck: Byte, tail: seq<Byte>)
    requires Le16(low, high) == 1 + |payload|
    ensures ParseGoodixBody([cmd, low, high] + payload + [ck] + tail) ==
            Some(Goodix(cmd, payload, Checksum(cmd, 1 + |payload|, payload) == ck))
  {
    var buf: seq<Byte> := [cmd, low, high] + payload + [ck] + tail;
    assert buf[3..3 + |payload|] == payload;
    assert buf[0] == cmd && buf[1] == low && buf[2] == high && buf[3 + |payload|] == ck;
  }

  lemma BodyRoundTrip(cmd: Byte, payload: seq<Byte>)
    requires |payload| <= GOODIX_PAYLOAD_MAX
    ensures ParseGoodixBody(Body(cmd, payload)) == Some(Goodix(cmd, payload, true))
  {
    var declLen := 1 + |payload|;
    Le16RoundTrip(declLen);
    assert Body(cmd, payload) == Body(cmd, payload) + [];
    ParseBodyReads(cmd, Low(declLen), High(declLen), payload, Checksum(cmd, declLen, payload), []);
  }

  lemma UnwrapReads(head: seq<Byte>, mid: seq<Byte>, frame: seq<Byte>, tail: seq<Byte>)
    requires |head| == 4 && |mid| == 4
    ensures Unwrap(head + mid + frame + tail) ==
            if head[0] != WRAPPER_MAGIC || !HeadOk(head) then None
            else if Le16(head[1], head[2]) > |frame| + |tail| then None
            else Some((frame + tail)[..Le16(head[1], head[2])])
  {
    var wire := head + mid + frame + tail;
    var len := Le16(head[1], head[2]);
    assert wire[0] == head[0] && wire[1] == head[1] && wire[2] == head[2] && wire[3] == head[3];
    if 8 + len <= |wire| {
      assert wire[8..8 + len] == (frame + tail)[..len];
    }
  }

  lemma ParseMpReads(head: seq<Byte>, payload: seq<Byte>)
    requires |head| == 4
    ensures ParseMpFrame(head + payload) ==
            if !MpType(head[0] / 16) || Le16(head[1], head[2]) >= MP_LEN_MAX || !HeadOk(head) then None
            else if Le16(head[1], head[2]) > |payload| then None
            else Some(Mp(head[0], payload[..Le16(head[1], head[2])]))
  {
    var buf := head + payload;
    assert buf[..4] == head;
    var len := Le16(head[1], head[2]);
    if 4 + len <= |buf| {
      assert buf[4..4 + len] == payload[..len];
    }
  }

  /** The builder accepts one length more than the parser does. */
  lemma MpRoundTripExactly(mpType: nat, payload: seq<Byte>)
    requires MpType(mpType) && |payload| <= MP_LEN_MAX
    ensures ParseMpFrame(MpFrame(mpType, payload)) ==
            if |payload| < MP_LEN_MAX then Some(Mp(16 * mpType, payload)) else None
  {
    Le16RoundTrip(|payload|);
    ParseMpReads(Head(16 * mpType, |payload|), payload);
    assert payload[..|payload|] == payload;
  }

  lemma UnwrapRoundTrip(seq16: nat, frame: seq<Byte>)
    requires |frame| < 0x10000
    ensures Unwrap(Wrapped(seq16, frame)) == Some(frame)
  {
    Le16RoundTrip(|frame|);
    var tail := Zeros(Padding(|frame|));
    UnwrapReads(Head(WRAPPER_MAGIC, |frame|), Sequence(seq16), frame, tail);
    assert (frame + tail)[..|frame|] == frame;
  }

  /** What one command looks like in the mailbox. */
  function Wire(seq16: nat, cmd: Byte, payload: seq<Byte>): seq<Byte> {
    Wrapped(seq16, MpFrame(TYPE_A, Body(cmd, payload)))
  }

  lemma PaddingAligns(len: nat)
    ensures (8 + len + Padding(len)) % ALIGN == 0 && Padding(len) < ALIGN
  {
  }

  /** A command fits the mailbox exactly when its payload has at most 496 bytes. */
  lemma FitsExactly(seq16: nat, cmd: Byte, payload: seq<Byte>)
    ensures |Wire(seq16, cmd, payload)| % ALIGN == 0
    ensures |Wire(seq16, cmd, payload)| <= TX_BUFFER_SIZE <==> |payload| <= 496
  {
    PaddedFits(|payload| + 8);
  }

  lemma PaddedFits(len: nat)
    ensures (8 + len + Padding(len)) % ALIGN == 0
    ensures 8 + len + Padding(len) <= TX_BUFFER_SIZE <==> len <= 504
  {
    PaddingAligns(len);
    if len == 504 { assert Padding(len) == 0; }
  }

  /** Two bytes, the lower first. */
  predicate IsLe16(s: seq<Byte>, i: nat, n: nat) { i + 1 < |s| && s[i] as int + 256 * s[i + 1] as int == n }

  /** The wrapper around len bytes at its place: magic, length, check byte, sequence number and zeros. */
  predicate WrapperFields(w: seq<Byte>, seq16: nat, len: nat) {
    && |w| >= 8 + len
    && w[0] == 0xf0 && IsLe16(w, 1, len) && w[3] as int == (w[0] as int + w[1] as int + w[2] as int) % 256
    && IsLe16(w, 4, seq16 % 0x10000) && w[6] == 0 && w[7] == 0
    && forall i | 8 + len <= i < |w| :: w[i] == 0
  }

  /** A command frame byte by byte: MP head, then command, length, payload and the byte that completes the sum. */
  predicate FrameFields(f: seq<Byte>, cmd: Byte, payload: seq<Byte>) {
    var n := |payload|;
    && |f| == n + 8
    && f[0] == 0xa0 && IsLe16(f, 1, n + 4) && f[3] as int == (f[0] as int + f[1] as int + f[2] as int) % 256
    && f[4] == cmd && IsLe16(f, 5, n + 1) && f[7..7 + n] == payload && Sum(f[4..]) % 256 == 0xaa
  }

  lemma WrapperLayout(seq16: nat, frame: seq<Byte>)
    requires |frame| < 0x10000
    ensures WrapperFields(Wrapped(seq16, frame), seq16, |frame|)
    ensures Wrapped(seq16, frame)[8..8 + |frame|] == frame
  {
    var w := Wrapped(seq16, frame);
    HeadLayout(WRAPPER_MAGIC, |frame|);
    SequenceLayout(seq16);
    assert w[..4] == Head(WRAPPER_MAGIC, |frame|) && w[4..8] == Sequence(seq16);
    assert w[8 + |frame|..] == Zeros(Padding(|frame|));
    SliceAt(w, 0, 4);
    SliceAt(w, 4, 8);
    SliceAt(w, 8 + |frame|, |w|);
  }

  /** Every byte of a command in the mailbox is at the place the two tables give it. */
  lemma WireLayout(seq16: nat, cmd: Byte, payload: seq<Byte>)
    requires |payload| <= 496
    ensures var w, n := Wire(seq16, cmd, payload), |payload|;
            WrapperFields(w, seq16, n + 8) && FrameFields(w[8..16 + n], cmd, payload)
  {
    FrameLayout(cmd, payload);
    WrapperLayout(seq16, MpFrame(TYPE_A, Body(cmd, payload)));
  }

  lemma SliceAt(w: seq<Byte>, a: nat, b: nat)
    requires a <= b <= |w|
    ensures forall i | a <= i < b :: w[i] == w[a..b][i - a]
  {
  }

  lemma HeadLayout(first: Byte, len: nat)
    requires len < 0x10000
    ensures var h := Head(first, len);
            h[0] == first && IsLe16(h, 1, len) && h[3] as int == (h[0] as int + h[1] as int + h[2] as int) % 256
  {
    Le16RoundTrip(len);
    LowIsModulo(first as int + Low(len) as int + High(len) as int);
  }

  lemma SequenceLayout(seq16: nat)
    ensures IsLe16(Sequence(seq16), 0, seq16 % 0x10000) && Sequence(seq16)[2] == 0 && Sequence(seq16)[3] == 0
  {
    LowIsModulo(seq16);
    LowIsModulo(seq16 / 256);
  }

  lemma FrameLayout(cmd: Byte, payload: seq<Byte>)
    requires |payload| <= 496
    ensures FrameFields(MpFrame(TYPE_A, Body(cmd, payload)), cmd, payload)
  {
    var body, n := Body(cmd, payload), |payload|;
    var f := MpFrame(TYPE_A, body);
    HeadLayout(16 * TYPE_A, n + 4);
    Le16RoundTrip(n + 1);
    BodySum(cmd, payload);
    assert f[..4] == Head(16 * TYPE_A, n + 4) && f[4..] == body;
    SliceAt(f, 0, 4);
    SliceAt(f, 4, |f|);
    assert f[7..7 + n] == body[3..3 + n] == payload;
  }

  /** The receiver of a transmitted command gets the command byte and the payload back. */
  lemma DecodeRecoversCommand(seq16: nat, cmd: Byte, payload: seq<Byte>)
    requires |payload| < MP_LEN_MAX - 4
    ensures Decode(Wire(seq16, cmd, payload)) == Some((cmd, payload))
  {
    BodyRoundTrip(cmd, payload);
    MpRoundTripExactly(TYPE_A, Body(cmd, payload));
    UnwrapRoundTrip(seq16, MpFrame(TYPE_A, Body(cmd, payload)));
  }

  // ----- detection of a changed byte ---------------------------------------------

  /** The bytes the three layers protect: both headers, command, payload and body checksum. */
  predicate Protected(i: nat, payloadLen: nat) {
    i < 4 || 8 <= i <= 12 || 15 <= i <= 15 + payloadLen
  }

  lemma CommandChangeDetected(cmd: Byte, x: Byte, declLen: nat, payload: seq<Byte>)
    requires x != cmd
    ensures Checksum(x, declLen, payload) != Checksum(cmd, declLen, payload)
  {
    ComplementTellsBytesApart(Low(declLen) + High(declLen) + Sum(payload), cmd, x);
  }

  lemma PayloadChangeDetected(cmd: Byte, declLen: nat, payload: seq<Byte>, k: nat, x: Byte)
    requires k < |payload| && x != payload[k]
    ensures Checksum(cmd, declLen, payload[k := x]) != Checksum(cmd, declLen, payload)
  {
    SumUpdate(payload, k, x);
    SumUpdate(payload, k, 0);
    ComplementTellsBytesApart(cmd + Low(declLen) + High(declLen) + Sum(payload[k := 0]), payload[k], x);
  }

  predicate BadChecksum(p: Option<Goodix>) { p.Some? && !p.value.checksumOk }

  lemma WrongChecksumSeen(cmd: Byte, low: Byte, high: Byte, payload: seq<Byte>, ck: Byte, buf: seq<Byte>)
    requires Le16(low, high) == 1 + |payload| && Checksum(cmd, 1 + |payload|, payload) != ck
    requires buf == [cmd, low, high] + payload + [ck]
    ensures BadChecksum(ParseGoodixBody(buf))
  {
    assert buf == [cmd, low, high] + payload + [ck] + [];
    ParseBodyReads(cmd, low, high, payload, ck, []);
  }

  /** The three ways to change a body outside its length: command, payload byte, checksum. */
  lemma CommandByteSeen(cmd: Byte, payload: seq<Byte>, x: Byte)
    requires |payload| <= GOODIX_PAYLOAD_MAX && x != cmd
    ensures BadChecksum(ParseGoodixBody(Body(cmd, payload)[0 := x]))
  {
    var declLen := 1 + |payload|;
    var ck := Checksum(cmd, declLen, payload);
    Le16RoundTrip(declLen);
    CommandChangeDetected(cmd, x, declLen, payload);
    WrongChecksumSeen(x, Low(declLen), High(declLen), payload, ck, Body(cmd, payload)[0 := x]);
  }

  lemma ChecksumByteSeen(cmd: Byte, payload: seq<Byte>, x: Byte)
    requires |payload| <= GOODIX_PAYLOAD_MAX && x != Checksum(cmd, 1 + |payload|, payload)
    ensures BadChecksum(ParseGoodixBody(Body(cmd, payload)[3 + |payload| := x]))
  {
    var declLen := 1 + |payload|;
    Le16RoundTrip(declLen);
    WrongChecksumSeen(cmd, Low(declLen), High(declLen), payload, x, Body(cmd, payload)[3 + |payload| := x]);
  }

  lemma PayloadByteSeen(cmd: Byte, payload: seq<Byte>, k: nat, x: Byte)
    requires k < |payload| <= GOODIX_PAYLOAD_MAX && x != payload[k]
    ensures BadChecksum(ParseGoodixBody(Body(cmd, payload)[3 + k := x]))
  {
    var declLen, changed := 1 + |payload|, payload[k := x];
    var ck := Checksum(cmd, declLen, payload);
    Le16RoundTrip(declLen);
    PayloadChangeDetected(cmd, declLen, payload, k, x);
    WrongChecksumSeen(cmd, Low(declLen), High(declLen), changed, ck, Body(cmd, payload)[3 + k := x]);
  }

  lemma BodyChangeDetected(cmd: Byte, payload: seq<Byte>, i: nat, x: Byte)
    requires |payload| <= GOODIX_PAYLOAD_MAX
    requires i == 0 || 3 <= i < |payload| + 4
    requires x != Body(cmd, payload)[i]
    ensures BadChecksum(ParseGoodixBody(Body(cmd, payload)[i := x]))
  {
    if i == 0 {
      CommandByteSeen(cmd, payload, x);
    } else if i == 3 + |payload| {
      ChecksumByteSeen(cmd, payload, x);
    } else {
      PayloadByteSeen(cmd, payload, i - 3, x);
    }
  }

  lemma ChangedHeadRefused(body: seq<Byte>, i: nat, x: Byte)
    requires i < 4 && |body| < MP_LEN_MAX && x != MpFrame(TYPE_A, body)[i]
    ensures ParseMpFrame(MpFrame(TYPE_A, body)[i := x]) == None
  {
    var head := Head(16 * TYPE_A, |body|);
    var whole: seq<Byte> := head + body;
    assert whole[i := x] == head[i := x] + body;
    ParseMpReads(head[i := x], body);
    HeadChangeDetected(16 * TYPE_A, |body|, i, x);
  }

  lemma ChangedBodyCarried(body: seq<Byte>, k: nat, x: Byte)
    requires k < |body| < MP_LEN_MAX
    ensures ParseMpFrame(MpFrame(TYPE_A, body)[4 + k := x]) == Some(Mp(16 * TYPE_A, body[k := x]))
  {
    var whole: seq<Byte> := Head(16 * TYPE_A, |body|) + body;
    assert whole[4 + k := x] == MpFrame(TYPE_A, body[k := x]);
    MpRoundTripExactly(TYPE_A, body[k := x]);
  }

  lemma ChangedFrameRefused(cmd: Byte, payload: seq<Byte>, i: nat, x: Byte)
    requires |payload| < MP_LEN_MAX - 4
    requires i <= 4 || 7 <= i <= 7 + |payload|
    requires x != MpFrame(TYPE_A, Body(cmd, payload))[i]
    ensures var mp := ParseMpFrame(MpFrame(TYPE_A, Body(cmd, payload))[i := x]);
            mp.None? || (var p := ParseGoodixBody(mp.value.payload); p.None? || !p.value.checksumOk)
  {
    var body := Body(cmd, payload);
    if i < 4 {
      ChangedHeadRefused(body, i, x);
    } else {
      ChangedBodyCarried(body, i - 4, x);
      BodyChangeDetected(cmd, payload, i - 4, x);
    }
  }

  lemma ChangedWrapperRefused(seq16: nat, frame: seq<Byte>, i: nat, x: Byte)
    requires i < 4 && x != Wrapped(seq16, frame)[i]
    ensures Unwrap(Wrapped(seq16, frame)[i := x]) == None
  {
    var head, mid, tail := Head(WRAPPER_MAGIC, |frame|), Sequence(seq16), Zeros(Padding(|frame|));
    var whole: seq<Byte> := head + mid + frame + tail;
    assert whole[i := x] == head[i := x] + mid + frame + tail;
    UnwrapReads(head[i := x], mid, frame, tail);
    HeadChangeDetected(WRAPPER_MAGIC, |frame|, i, x);
  }

  lemma ChangedFrameCarried(seq16: nat, frame: seq<Byte>, k: nat, x: Byte)
    requires k < |frame| < 0x10000
    ensures Unwrap(Wrapped(seq16, frame)[8 + k := x]) == Some(frame[k := x])
  {
    assert Wrapped(seq16, frame)[8 + k := x] == Wrapped(seq16, frame[k := x]);
    UnwrapRoundTrip(seq16, frame[k := x]);
  }

  /** Changing any one protected byte of a transmitted command makes some layer refuse it. */
  lemma SingleByteChangeDetected(seq16: nat, cmd: Byte, payload: seq<Byte>, i: nat, x: Byte)
    requires |payload| < MP_LEN_MAX - 4 && Protected(i, |payload|)
    requires x != Wire(seq16, cmd, payload)[i]
    ensures Decode(Wire(seq16, cmd, payload)[i := x]) == None
  {
    var frame := MpFrame(TYPE_A, Body(cmd, payload));
    if i < 4 {
      ChangedWrapperRefused(seq16, frame, i, x);
    } else {
      ChangedFrameCarried(seq16, frame, i - 8, x);
      WrappedAt(seq16, frame, i - 8);
      ChangedFrameRefused(cmd, payload, i - 8, x);
    }
  }

  lemma WrappedAt(seq16: nat, frame: seq<Byte>, k: nat)
    requires k < |frame|
    ensures Wrapped(seq16, frame)[8 + k] == frame[k]
  {
  }

  // ----- changes outside that protection ------------------------------------------

  /** The payload, cut before place d - 1, has there the very checksum a body of length d would have. */
  predicate Shortens(cmd: Byte, payload: seq<Byte>, d: nat) {
    1 <= d <= |payload| && payload[d - 1] == Checksum(cmd, d, payload[..d - 1])
  }

  /** A changed length is accepted exactly when the payload happens to carry a checksum at the new end. */
  lemma LengthChangeExactly(cmd: Byte, payload: seq<Byte>, low: Byte, high: Byte)
    requires Le16(low, high) != 1 + |payload|
    ensures var d := Le16(low, high);
            var p := ParseGoodixBody([cmd, low, high] + payload + [Checksum(cmd, 1 + |payload|, payload)]);
            && (p.Some? && p.value.checksumOk <==> Shortens(cmd, payload, d))
            && (Shortens(cmd, payload, d) ==> p == Some(Goodix(cmd, payload[..d - 1], true)))
  {
    var d, ck := Le16(low, high), Checksum(cmd, 1 + |payload|, payload);
    if 1 <= d <= |payload| {
      var buf: seq<Byte> := [cmd, low, high] + payload + [ck];
      assert buf == [cmd, low, high] + payload[..d - 1] + [payload[d - 1]] + (payload[d..] + [ck]);
      ParseBodyReads(cmd, low, high, payload[..d - 1], payload[d - 1], payload[d..] + [ck]);
    }
  }

  /** The two length bytes of the body, in the mailbox. */
  predicate LengthByte(i: nat) { i == 13 || i == 14 }

  /** The length declared after byte i of the message has become x. */
  function LengthWith(payloadLen: nat, i: nat, x: Byte): nat {
    if i == 13 then Le16(x, High(1 + payloadLen)) else Le16(Low(1 + payloadLen), x)
  }

  lemma IgnoredByte(seq16: nat, frame: seq<Byte>, i: nat, x: Byte)
    requires |frame| < 0x10000 && (4 <= i < 8 || 8 + |frame| <= i < |Wrapped(seq16, frame)|)
    ensures Unwrap(Wrapped(seq16, frame)[i := x]) == Some(frame)
  {
    var head, mid, tail := Head(WRAPPER_MAGIC, |frame|), Sequence(seq16), Zeros(Padding(|frame|));
    var whole: seq<Byte> := head + mid + frame + tail;
    Le16RoundTrip(|frame|);
    if i < 8 {
      assert whole[i := x] == head + mid[i - 4 := x] + frame + tail;
      UnwrapReads(head, mid[i - 4 := x], frame, tail);
      assert (frame + tail)[..|frame|] == frame;
    } else {
      var junk := tail[i - 8 - |frame| := x];
      assert whole[i := x] == head + mid + frame + junk;
      UnwrapReads(head, mid, frame, junk);
      assert (frame + junk)[..|frame|] == frame;
    }
  }

  lemma ChangedLengthParsed(cmd: Byte, payload: seq<Byte>, j: nat, x: Byte)
    requires |payload| < MP_LEN_MAX - 4 && (j == 1 || j == 2) && x != Body(cmd, payload)[j]
    ensures var d := LengthWith(|payload|, 12 + j, x);
            Accepted(ParseGoodixBody(Body(cmd, payload)[j := x])) ==
            if Shortens(cmd, payload, d) then Some((cmd, payload[..d - 1])) else None
  {
    var n := 1 + |payload|;
    var low, high := if j == 1 then x else Low(n), if j == 1 then High(n) else x;
    Le16RoundTrip(n);
    if Le16(low, high) == n { Le16Injective(low, high, Low(n), High(n)); }
    assert Body(cmd, payload)[j := x] == [cmd, low, high] + payload + [Checksum(cmd, n, payload)];
    LengthChangeExactly(cmd, payload, low, high);
  }

  lemma ChangedBodyDecoded(seq16: nat, body: seq<Byte>, k: nat, x: Byte)
    requires k < |body| < MP_LEN_MAX
    ensures Decode(Wrapped(seq16, MpFrame(TYPE_A, body))[12 + k := x]) == Accepted(ParseGoodixBody(body[k := x]))
    ensures Wrapped(seq16, MpFrame(TYPE_A, body))[12 + k] == body[k]
  {
    WrappedAt(seq16, MpFrame(TYPE_A, body), 4 + k);
    MpFrameAt(body, k);
    ChangedFrameCarried(seq16, MpFrame(TYPE_A, body), 4 + k, x);
    ChangedBodyCarried(body, k, x);
  }

  lemma ChangedLengthDecoded(seq16: nat, cmd: Byte, payload: seq<Byte>, i: nat, x: Byte)
    requires |payload| < MP_LEN_MAX - 4 && LengthByte(i) && x != Wire(seq16, cmd, payload)[i]
    ensures var d := LengthWith(|payload|, i, x);
            Decode(Wire(seq16, cmd, payload)[i := x]) ==
            if Shortens(cmd, payload, d) then Some((cmd, payload[..d - 1])) else None
  {
    ChangedBodyDecoded(seq16, Body(cmd, payload), i - 12, x);
    ChangedLengthParsed(cmd, payload, i - 12, x);
  }

  lemma MpFrameAt(body: seq<Byte>, k: nat)
    requires k < |body|
    ensures MpFrame(TYPE_A, body)[4 + k] == body[k]
  {
  }

  /**
   Whether a change of any one byte of a transmitted command is noticed, and what is
   decoded if it is not: the sequence number and the padding are ignored, and a changed
   length byte is noticed unless the payload carries a fitting checksum at the new end.
   */
  lemma ChangeDetectedExactly(seq16: nat, cmd: Byte, payload: seq<Byte>, i: nat, x: Byte)
    requires |payload| < MP_LEN_MAX - 4 && i < |Wire(seq16, cmd, payload)| && x != Wire(seq16, cmd, payload)[i]
    ensures Decode(Wire(seq16, cmd, payload)[i := x]) == None <==>
            Protected(i, |payload|) || (LengthByte(i) && !Shortens(cmd, payload, LengthWith(|payload|, i, x)))
    ensures !Protected(i, |payload|) && !LengthByte(i) ==>
              Decode(Wire(seq16, cmd, payload)[i := x]) == Some((cmd, payload))
  {
    if Protected(i, |payload|) {
      SingleByteChangeDetected(seq16, cmd, payload, i, x);
    } else if LengthByte(i) {
      ChangedLengthDecoded(seq16, cmd, payload, i, x);
    } else {
      var frame := MpFrame(TYPE_A, Body(cmd, payload));
      IgnoredByte(seq16, frame, i, x);
      MpRoundTripExactly(TYPE_A, Body(cmd, payload));
      BodyRoundTrip(cmd, payload);
    }
  }

  lemma ShortChecksum(cmd: Byte, b: Byte)
    requires cmd == 0 && b == 0xa8
    ensures Checksum(cmd, 2, [b]) == 0
  {
    SumOne(b);
    ComplementCompletes(0xaa, 0);
  }

  /** A body whose changed length goes unnoticed. */
  lemma LengthByteNotProtected(cmd: Byte, payload: seq<Byte>)
    requires cmd == 0 && payload == [0xa8, 0]
    ensures ParseGoodixBody(Body(cmd, payload)[1 := 2]) == Some(Goodix(cmd, payload[..1], true))
  {
    var first, ck := payload[..1], Checksum(cmd, 1 + |payload|, payload);
    assert Body(cmd, payload)[1 := 2] == [cmd, 2, 0] + first + [0] + [ck];
    ParseBodyReads(cmd, 2, 0, first, 0, [ck]);
    assert first == [payload[0]];
    ShortChecksum(cmd, payload[0]);
  }
}
