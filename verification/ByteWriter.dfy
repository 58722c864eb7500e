/** The growable byte writer and the reader it is read back with. */
module ByteWriter {
  import opened Bytes
  import opened Options
  import C = ByteCodec

  predicate PowerOfTwo(r: nat) {
    r == 1 || (r > 1 && r % 2 == 0 && PowerOfTwo(r / 2))
  }

  lemma {:induction false} PowersDouble(r: nat, p: nat)
    requires PowerOfTwo(r) && PowerOfTwo(p) && r < 2 * p
    ensures r <= p
  {
    if r > 1 && p > 1 { PowersDouble(r / 2, p / 2); }
  }

  lemma HalfRangeIsPower()
    ensures PowerOfTwo(16) && PowerOfTwo(U32 / 2)
  {
    assert PowerOfTwo(16) by { assert PowerOfTwo(2) && PowerOfTwo(4) && PowerOfTwo(8); }
    assert PowerOfTwo(0x100) by { assert PowerOfTwo(0x20) && PowerOfTwo(0x40) && PowerOfTwo(0x80); }
    assert PowerOfTwo(0x1000) by { assert PowerOfTwo(0x200) && PowerOfTwo(0x400) && PowerOfTwo(0x800); }
    assert PowerOfTwo(0x1_0000) by { assert PowerOfTwo(0x2000) && PowerOfTwo(0x4000) && PowerOfTwo(0x8000); }
    assert PowerOfTwo(0x10_0000) by {
      assert PowerOfTwo(0x2_0000) && PowerOfTwo(0x4_0000) && PowerOfTwo(0x8_0000);
    }
    assert PowerOfTwo(0x100_0000) by {
      assert PowerOfTwo(0x20_0000) && PowerOfTwo(0x40_0000) && PowerOfTwo(0x80_0000);
    }
    assert PowerOfTwo(0x1000_0000) by {
      assert PowerOfTwo(0x200_0000) && PowerOfTwo(0x400_0000) && PowerOfTwo(0x800_0000);
    }
    assert PowerOfTwo(0x2000_0000) && PowerOfTwo(0x4000_0000) && PowerOfTwo(0x8000_0000);
  }

  /** The least power of two that is at least 16 and n, or n itself once the shift has overflowed. */
  method NextPow2(n: nat) returns (r: nat)
    requires n < U32
    ensures n <= r < U32
    ensures n > U32 / 2 ==> r == n
    ensures n <= U32 / 2 ==> PowerOfTwo(r) && r >= 16
    ensures n <= U32 / 2 ==> forall p :: 16 <= p && n <= p && PowerOfTwo(p) ==> r <= p
  {
    HalfRangeIsPower();
    var ret := 16;
    while ret < n && ret > 0
      invariant ret == 0 ==> n > U32 / 2
      invariant ret > 0 ==> PowerOfTwo(ret) && 16 <= ret <= U32 / 2 && (ret == 16 || ret / 2 < n)
      decreases if ret == 0 then 0 else U32 - ret
    {
      if ret < U32 / 2 {
        assert 2 * ret / 2 == ret;
        PowersDouble(2 * ret, U32 / 2);
      }
      ret := 2 * ret % U32;
    }
    r := if ret > 0 then ret else n;
    if n <= U32 / 2 {
      forall p | 16 <= p && n <= p && PowerOfTwo(p) ensures r <= p {
        if p < r {
          assert r > 16;
          PowersDouble(p, r / 2);
        }
      }
    }
  }

  /** The bytes b written over s from pos on, extending s where they reach past its end. */
  function Overwrite(s: seq<Byte>, pos: nat, b: seq<Byte>): (t: seq<Byte>)
    requires pos <= |s|
    ensures |t| == if pos + |b| > |s| then pos + |b| else |s|
    decreases |b|
  {
    if b == [] then s
    else Overwrite(if pos < |s| then s[pos := b[0]] else s + [b[0]], pos + 1, b[1..])
  }

  lemma {:induction false} OverwriteAt(s: seq<Byte>, pos: nat, b: seq<Byte>, i: nat)
    requires pos <= |s| && i < |Overwrite(s, pos, b)|
    ensures Overwrite(s, pos, b)[i] == if pos <= i < pos + |b| then b[i - pos] else s[i]
    decreases |b|
  {
    if b != [] {
      OverwriteAt(if pos < |s| then s[pos := b[0]] else s + [b[0]], pos + 1, b[1..], i);
    }
  }

  lemma {:induction false} OverwriteTwice(s: seq<Byte>, pos: nat, a: seq<Byte>, b: seq<Byte>)
    requires pos <= |s|
    ensures Overwrite(Overwrite(s, pos, a), pos + |a|, b) == Overwrite(s, pos, a + b)
    decreases |a|
  {
    if a == [] {
      assert a + b == b;
    } else {
      assert (a + b)[1..] == a[1..] + b && (a + b)[0] == a[0];
      OverwriteTwice(if pos < |s| then s[pos := a[0]] else s + [a[0]], pos + 1, a[1..], b);
    }
  }

  lemma OverwriteFresh(b: seq<Byte>)
    ensures Overwrite([], 0, b) == b
  {
    forall i | 0 <= i < |b| ensures Overwrite([], 0, b)[i] == b[i] {
      OverwriteAt([], 0, b, i);
    }
  }

  /** Overrun: granted without room, so that the C code writes past its buffer; the model stops short of that. */
  datatype Outcome = Stored | NoRoom | Overrun

  class ByteWriter {
    var data: array<Byte>
    var byte: nat
    var size: nat
    var allocSize: nat
    const fixed: bool
    const owned: bool

    /** The fields describe memory the writer has. */
    ghost predicate Shape()
      reads this
    {
      byte <= size <= data.Length <= allocSize < U32
    }

    ghost predicate Valid()
      reads this
    {
      Shape() && allocSize == data.Length
    }

    ghost function Contents(): seq<Byte>
      requires Shape()
      reads this, data
    {
      data[..size]
    }

    constructor (capacity: nat, fixed: bool)
      requires capacity < U32
      ensures Valid() && fresh(data) && Contents() == [] && byte == 0
      ensures allocSize == capacity && this.fixed == fixed && owned
    {
      data := new Byte[capacity];
      byte, size, allocSize := 0, 0, capacity;
      this.fixed, owned := fixed, true;
    }

    /** Whether n more bytes can be granted, given the allocator's answer. */
    ghost predicate Grants(n: nat, memory: bool)
      reads this
    {
      byte + n <= allocSize || (!fixed && owned && byte + n < U32 && memory)
    }

    /** The allocator refused a growth that was asked of it. */
    ghost predicate Refused(n: nat, memory: bool)
      reads this
    {
      byte + n > allocSize && !fixed && owned && byte + n < U32 && !memory
    }

    /** A growth is asked of the allocator and served. */
    ghost predicate Grows(n: nat, memory: bool)
      reads this
    {
      byte + n > allocSize && Grants(n, memory)
    }

    /** The recorded size promises room for n bytes that the buffer does not have. */
    ghost predicate Overruns(n: nat)
      reads this
    {
      data.Length < byte + n <= allocSize
    }

    /**
     Room for n bytes at the cursor. After a refused growth the recorded size exceeds
     the buffer: a request is then granted without room exactly when it overruns.
     */
    method EnsureFreeSpace(n: nat, memory: bool) returns (ok: bool)
      requires Shape() && n < U32
      modifies this
      ensures Shape() && byte == old(byte) && size == old(size) && (data == old(data) || fresh(data))
      ensures Contents() == old(Contents())
      ensures ok == old(Grants(n, memory))
      ensures ok ==> (byte + n <= data.Length <==> !old(Overruns(n)))
      ensures Valid() <==> old(Grows(n, memory)) || (old(Valid()) && !old(Refused(n, memory)))
      ensures old(Refused(n, memory)) ==> Overruns(n) && data == old(data)
      ensures !old(Grows(n, memory)) ==> data == old(data)
      ensures !old(Grows(n, memory)) && !old(Refused(n, memory)) ==> allocSize == old(allocSize)
    {
      if n <= allocSize - byte { return true; }
      if fixed || !owned { return false; }
      if byte > U32 - 1 - n { return false; }
      allocSize := NextPow2(byte + n);
      if !memory { return false; }
      var bytes: seq<Byte> := data[..];
      data := new Byte[allocSize](i => if 0 <= i < |bytes| then bytes[i] else 0);
      return true;
    }

    /** The same request twice while the allocator serves nothing: granted without room exactly if it was refused first. */
    method AskTwice(n: nat) returns (first: bool, second: bool)
      requires Valid() && n < U32
      modifies this
      ensures Shape() && Contents() == old(Contents()) && data == old(data)
      ensures first == (old(byte) + n <= old(allocSize))
      ensures second && byte + n > data.Length <==> old(Refused(n, false))
    {
      first := EnsureFreeSpace(n, false);
      second := EnsureFreeSpace(n, false);
    }

    /** The unchecked store, shared by the typed writers, the block copy and the fill. */
    method Store(b: seq<Byte>)
      requires Shape() && byte + |b| <= data.Length
      modifies this`byte, this`size, data
      ensures Shape()
      ensures Contents() == Overwrite(old(Contents()), old(byte), b) && byte == old(byte) + |b|
    {
      ghost var was := Contents();
      for i := 0 to |b|
        invariant Shape() && data == old(data) && byte == old(byte) && size == old(size)
        invariant forall k :: 0 <= k < i ==> data[byte + k] == b[k]
        invariant forall k :: 0 <= k < byte || byte + i <= k < data.Length ==> data[k] == old(data[k])
      {
        data[byte + i] := b[i];
      }
      byte := byte + |b|;
      size := if size > byte then size else byte;
      forall k | 0 <= k < size ensures data[k] == Overwrite(was, old(byte), b)[k] {
        OverwriteAt(was, old(byte), b, k);
      }
    }

    /** What a write of n bytes comes to. */
    ghost function Expected(n: nat, memory: bool): Outcome
      reads this
    {
      if !Grants(n, memory) then NoRoom else if Overruns(n) then Overrun else Stored
    }

    method PutData(b: seq<Byte>, memory: bool) returns (r: Outcome)
      requires Shape() && |b| < U32
      modifies this, data
      ensures Shape() && (data == old(data) || fresh(data))
      ensures r == old(Expected(|b|, memory))
      ensures Valid() <==> old(Grows(|b|, memory)) || (old(Valid()) && !old(Refused(|b|, memory)))
      ensures Contents() == if r == Stored then Overwrite(old(Contents()), old(byte), b) else old(Contents())
      ensures byte == old(byte) + if r == Stored then |b| else 0
    {
      var ok := EnsureFreeSpace(|b|, memory);
      if !ok { return NoRoom; }
      if byte + |b| > data.Length { return Overrun; }
      Store(b);
      return Stored;
    }

    method Put(v: C.Value, memory: bool) returns (r: Outcome)
      requires Shape()
      modifies this, data
      ensures Shape() && (data == old(data) || fresh(data))
      ensures r == old(Expected(C.Size(v.kind.width), memory))
      ensures Valid() <==> old(Grows(C.Size(v.kind.width), memory)) ||
                           (old(Valid()) && !old(Refused(C.Size(v.kind.width), memory)))
      ensures Contents() == if r == Stored then Overwrite(old(Contents()), old(byte), C.Encode(v)) else old(Contents())
      ensures byte == old(byte) + if r == Stored then C.Size(v.kind.width) else 0
    {
      var n := C.Size(v.kind.width);
      var ok := EnsureFreeSpace(n, memory);
      if !ok { return NoRoom; }
      if byte + n > data.Length { return Overrun; }
      Store(C.Encode(v));
      return Stored;
    }

    method Fill(value: Byte, n: nat, memory: bool) returns (r: Outcome)
      requires Shape() && n < U32
      modifies this, data
      ensures Shape() && (data == old(data) || fresh(data))
      ensures r == old(Expected(n, memory))
      ensures Valid() <==> old(Grows(n, memory)) || (old(Valid()) && !old(Refused(n, memory)))
      ensures Contents() ==
              if r == Stored then Overwrite(old(Contents()), old(byte), seq(n, _ => value)) else old(Contents())
      ensures byte == old(byte) + if r == Stored then n else 0
    {
      var ok := EnsureFreeSpace(n, memory);
      if !ok { return NoRoom; }
      if byte + n > data.Length { return Overrun; }
      Store(seq(n, _ => value));
      return Stored;
    }

    method SetPos(pos: nat) returns (ok: bool)
      requires Shape()
      modifies this`byte
      ensures Shape() && Contents() == old(Contents()) && (Valid() <==> old(Valid()))
      ensures ok == (pos <= size) && byte == if ok then pos else old(byte)
    {
      ok := pos <= size;
      if ok { byte := pos; }
    }

    /** The allocator never refuses, and the cursor cannot pass the last 32-bit position. */
    ghost predicate Roomy(total: nat, memory: nat -> bool)
      reads this
    {
      !fixed && owned && (forall i :: memory(i)) && byte + total < U32
    }

    /** Typed values one after the other, up to the first that is not stored. */
    method PutAll(values: seq<C.Value>, memory: nat -> bool) returns (done: nat, r: Outcome)
      requires Shape()
      modifies this, data
      ensures done <= |values| && Shape() && (data == old(data) || fresh(data))
      ensures Contents() == Overwrite(old(Contents()), old(byte), C.EncodeAll(values[..done]))
      ensures byte == old(byte) + |C.EncodeAll(values[..done])|
      ensures r == Stored <==> done == |values|
      ensures old(Valid()) ==> r != Overrun && (r == Stored ==> Valid())
      ensures old(Valid() && Roomy(|C.EncodeAll(values)|, memory)) ==> r == Stored
    {
      done := 0;
      ghost var was, pos := Contents(), byte;
      assert values[..0] == [] && Overwrite(was, pos, []) == was;
      while done < |values|
        invariant done <= |values| && Shape() && (data == old(data) || fresh(data))
        invariant old(Valid()) ==> Valid()
        invariant Contents() == Overwrite(was, pos, C.EncodeAll(values[..done]))
        invariant byte == pos + |C.EncodeAll(values[..done])|
      {
        r := PutNext(values, done, memory(done), was, pos);
        if r != Stored { return; }
        done := done + 1;
      }
      assert values[..done] == values;
      r := Stored;
    }

    method PutNext(values: seq<C.Value>, done: nat, memory: bool, ghost was: seq<Byte>, ghost pos: nat)
      returns (r: Outcome)
      requires Shape() && done < |values| && pos <= |was|
      requires Contents() == Overwrite(was, pos, C.EncodeAll(values[..done]))
      requires byte == pos + |C.EncodeAll(values[..done])|
      modifies this, data
      ensures Shape() && (data == old(data) || fresh(data))
      ensures old(Valid()) ==> r != Overrun && (r == Stored ==> Valid())
      ensures r != Stored ==> Contents() == old(Contents()) && byte == old(byte)
      ensures r == Stored ==> Contents() == Overwrite(was, pos, C.EncodeAll(values[..done + 1])) &&
                              byte == pos + |C.EncodeAll(values[..done + 1])|
      ensures old(Valid()) && !fixed && owned && memory && pos + |C.EncodeAll(values)| < U32 ==> r == Stored
    {
      Extends(was, pos, values, done);
      r := Put(values[done], memory);
    }
  }

  lemma Extends(was: seq<Byte>, pos: nat, values: seq<C.Value>, done: nat)
    requires pos <= |was| && done < |values|
    ensures var written := C.EncodeAll(values[..done]);
            C.EncodeAll(values[..done + 1]) == written + C.Encode(values[done]) &&
            |written + C.Encode(values[done])| <= |C.EncodeAll(values)| &&
            Overwrite(Overwrite(was, pos, written), pos + |written|, C.Encode(values[done])) ==
            Overwrite(was, pos, written + C.Encode(values[done]))
  {
    assert values[..done + 1] == values[..done] + [values[done]];
    C.EncodeAllAppend(values[..done], values[done]);
    C.EncodeAllPrefix(values, done + 1);
    OverwriteTwice(was, pos, C.EncodeAll(values[..done]), C.Encode(values[done]));
  }

  class ByteReader {
    const data: array<Byte>
    const size: nat
    var byte: nat

    ghost predicate Valid()
      reads this
    {
      byte <= size <= data.Length
    }

    ghost function Rest(): seq<Byte>
      requires Valid()
      reads this, data
    {
      data[byte..size]
    }

    constructor (data: array<Byte>, size: nat)
      requires size <= data.Length
      ensures Valid() && this.data == data && this.size == size && Rest() == data[..size]
    {
      this.data, this.size, byte := data, size, 0;
    }

    method Get(kind: C.Kind) returns (r: Option<C.Value>)
      requires Valid()
      modifies this
      ensures Valid()
      ensures r.Some? <==> C.Size(kind.width) <= old(|Rest()|)
      ensures r.None? ==> byte == old(byte)
      ensures r.Some? ==> byte == old(byte) + C.Size(kind.width) &&
                          r.value == C.Decode(kind, old(Rest())[..C.Size(kind.width)]) &&
                          Rest() == old(Rest())[C.Size(kind.width)..]
    {
      var n := C.Size(kind.width);
      if size - byte < n { return None; }
      assert data[byte..byte + n] == Rest()[..n];
      r := Some(C.Decode(kind, data[byte..byte + n]));
      byte := byte + n;
    }

    method GetAll(kinds: seq<C.Kind>) returns (r: Option<seq<C.Value>>)
      requires Valid()
      modifies this
      ensures Valid() && r == C.DecodeAll(kinds, old(Rest()))
    {
      var i, values, v := 0, [], None;
      assert kinds[0..] == kinds;
      C.PrependNone([], C.DecodeAll(kinds, Rest()));
      while i < |kinds|
        invariant i <= |kinds| && Valid()
        invariant C.DecodeAll(kinds, old(Rest())) ==
                  C.Prepend(values, C.DecodeAll(kinds[i..], Rest()))
      {
        v := Get(kinds[i]);
        assert kinds[i..][1..] == kinds[i + 1..];
        if v.None? { return None; }
        C.PrependTwice(values, v.value, C.DecodeAll(kinds[i + 1..], Rest()));
        values, i := values + [v.value], i + 1;
      }
      C.PrependNone(values, None);
      return Some(values);
    }
  }

  method WriteFresh(values: seq<C.Value>) returns (writer: ByteWriter)
    requires |C.EncodeAll(values)| < U32
    ensures fresh(writer) && fresh(writer.data) && writer.Valid() && writer.Contents() == C.EncodeAll(values)
  {
    writer := new ByteWriter(0, false);
    var done, r := writer.PutAll(values, _ => true);
    assert values[..done] == values;
    OverwriteFresh(C.EncodeAll(values));
  }

  /** Values written from the start of a growable buffer are read back from position 0 unchanged. */
  method WriteThenRead(values: seq<C.Value>) returns (again: Option<seq<C.Value>>)
    requires C.AllInType(values)
    requires |C.EncodeAll(values)| < U32
    ensures again == Some(values) <==> C.AllInRange(values)
    ensures again.Some?
  {
    var writer := WriteFresh(values);
    var reader := new ByteReader(writer.data, writer.size);
    again := reader.GetAll(C.Kinds(values));
    C.WholeRoundTripExactly(values);
  }
}
