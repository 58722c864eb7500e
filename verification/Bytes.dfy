/** Bytes, their sums and little-endian 16-bit fields, as the kernel protocol code uses them. */
module Bytes {
  type Byte = x: int | 0 <= x < 256

  /** The number of unsigned 32-bit values. */
  const U32: nat := 0x1_0000_0000

  lemma Regroup<T>(a: seq<T>, b: seq<T>, c: seq<T>)
    ensures a + b + c == a + (b + c)
  {
  }

  function Sum(s: seq<Byte>): nat {
    if s == [] then 0 else Sum(s[..|s| - 1]) + s[|s| - 1]
  }

  /**
   The low byte of a number. It is n % 256 (LowIsModulo), taken by subtraction so that
   proofs about byte strings are kept apart from the arithmetic of remainders.
   */
  function Low(n: nat): Byte { if n < 256 then n else Low(n - 256) }

  function High(n: nat): Byte { Low(n / 256) }

  lemma {:induction false} LowIsModulo(n: nat)
    ensures Low(n) == n % 256
  {
    if n >= 256 { LowIsModulo(n - 256); }
  }

  function Le16(low: Byte, high: Byte): nat { low + 256 * high }

  /** The 8-bit sum of three bytes, the check byte of both frame headers. */
  function AddBytes(a: Byte, b: Byte, c: Byte): Byte { Low(a as int + b as int + c as int) }

  /** The four header bytes shared by the MP frame and the mailbox wrapper. */
  function Head(first: Byte, len: nat): seq<Byte> {
    [first, Low(len), High(len), AddBytes(first, Low(len), High(len))]
  }

  predicate HeadOk(h: seq<Byte>)
    requires |h| >= 4
  {
    h[3] == AddBytes(h[0], h[1], h[2])
  }

  lemma HeadChangeDetected(first: Byte, len: nat, i: nat, x: Byte)
    requires i < 4 && x != Head(first, len)[i]
    ensures !HeadOk(Head(first, len)[i := x])
  {
    var h := Head(first, len);
    if i == 0 {
      AddBytesDiffers(h[1], h[2], h[0], x);
    } else if i == 1 {
      AddBytesDiffers(h[0], h[2], h[1], x);
    } else if i == 2 {
      AddBytesDiffers(h[0], h[1], h[2], x);
    }
  }

  lemma AddBytesDiffers(a: Byte, b: Byte, x: Byte, y: Byte)
    requires x != y
    ensures AddBytes(a, b, x) != AddBytes(a, b, y)
    ensures AddBytes(a, x, b) == AddBytes(a, b, x) && AddBytes(x, a, b) == AddBytes(a, b, x)
    ensures AddBytes(a, y, b) == AddBytes(a, b, y) && AddBytes(y, a, b) == AddBytes(a, b, y)
  {
    LowIsModulo(a as int + b as int + x as int);
    LowIsModulo(a as int + b as int + y as int);
  }

  lemma Le16RoundTrip(n: nat)
    requires n < 0x10000
    ensures Le16(Low(n), High(n)) == n
  {
    LowIsModulo(n);
    LowIsModulo(n / 256);
  }

  lemma Le16Injective(a: Byte, b: Byte, c: Byte, d: Byte)
    requires Le16(a, b) == Le16(c, d)
    ensures a == c && b == d
  {
  }

  lemma {:induction false} SumAppend(s: seq<Byte>, t: seq<Byte>)
    ensures Sum(s + t) == Sum(s) + Sum(t)
  {
    if t == [] {
      assert s + t == s;
    } else {
      assert (s + t)[..|s + t| - 1] == s + t[..|t| - 1];
      SumAppend(s, t[..|t| - 1]);
    }
  }

  lemma {:induction false} SumUpdate(s: seq<Byte>, i: nat, b: Byte)
    requires i < |s|
    ensures Sum(s[i := b]) == Sum(s) - s[i] + b
  {
    assert s == s[..i] + [s[i]] + s[i + 1..];
    assert s[i := b] == s[..i] + [b] + s[i + 1..];
    SumAppend(s[..i] + [s[i]], s[i + 1..]);
    SumAppend(s[..i] + [b], s[i + 1..]);
    SumAppend(s[..i], [s[i]]);
    SumAppend(s[..i], [b]);
    SumOne(s[i]);
    SumOne(b);
  }

  lemma SumOne(b: Byte)
    ensures Sum([b]) == b
  {
    assert [b][..0] == [];
  }
}
