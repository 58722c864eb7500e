/**
 The little- and big-endian read and write macros of 8 to 64 bits, signed and
 unsigned. Shifts are division and multiplication by powers of 256, and the `or` of
 bytes shifted to disjoint places is their sum.
 */
module ByteCodec {
  import opened Bytes
  import opened Options
  import opened Products

  datatype Width = Bits8 | Bits16 | Bits24 | Bits32 | Bits64

  datatype Kind = Kind(width: Width, signed: bool, big: bool)

  datatype Value = Value(kind: Kind, x: int)

  function Size(w: Width): nat {
    match w
    case Bits8 => 1
    case Bits16 => 2
    case Bits24 => 3
    case Bits32 => 4
    case Bits64 => 8
  }

  /** The number of values of the C type that carries a value of this width. */
  function TypeRange(w: Width): nat {
    match w
    case Bits8 => 0x100
    case Bits16 => 0x1_0000
    case Bits24 => 0x1_0000_0000
    case Bits32 => 0x1_0000_0000
    case Bits64 => 0x1_0000_0000_0000_0000
  }

  predicate Within(x: int, signed: bool, range: nat) {
    if signed then -(range as int) / 2 <= x < range / 2 else 0 <= x < range
  }

  /** The C parameter can hold this value. */
  predicate InType(v: Value) {
    Within(v.x, v.kind.signed, TypeRange(v.kind.width))
  }

  /** The value is one of the range its name promises. */
  predicate InRange(v: Value) {
    Within(v.x, v.kind.signed, if v.kind.width == Bits24 then 0x100_0000 else TypeRange(v.kind.width))
  }

  /** The value cast to its unsigned type. */
  function Pattern(w: Width, x: int): nat {
    match w
    case Bits8 => x % 0x100
    case Bits16 => x % 0x1_0000
    case Bits24 => x % 0x1_0000_0000
    case Bits32 => x % 0x1_0000_0000
    case Bits64 => x % 0x1_0000_0000_0000_0000
  }

  /** The low n bytes of a pattern, lowest first. */
  function LittleEndian(pattern: nat, n: nat): (s: seq<Byte>)
    ensures |s| == n
  {
    if n == 0 then [] else [Low(pattern)] + LittleEndian(pattern / 256, n - 1)
  }

  function Joined(s: seq<Byte>): nat {
    if s == [] then 0 else s[0] as nat + 256 * Joined(s[1..])
  }

  function Reversed(s: seq<Byte>): (r: seq<Byte>)
    ensures |r| == |s|
  {
    if s == [] then [] else Reversed(s[1..]) + [s[0]]
  }

  function Encode(v: Value): (s: seq<Byte>)
    ensures |s| == Size(v.kind.width)
  {
    var le := LittleEndian(Pattern(v.kind.width, v.x), Size(v.kind.width));
    if v.kind.big then Reversed(le) else le
  }

  function AsSigned(pattern: nat, range: nat): int {
    if pattern < range / 2 then pattern else pattern - range
  }

  /** The sign fix-up of the signed 24-bit readers: bit 23 sets the top eight bits. */
  function FixSign(pattern: nat): nat {
    if pattern / 0x80_0000 % 2 == 1 then pattern + 0xff00_0000 else pattern
  }

  /** The bits read, cast to the type of the result. */
  function Cast(kind: Kind, pattern: nat): int {
    if !kind.signed then pattern
    else AsSigned(if kind.width == Bits24 then FixSign(pattern) else pattern, TypeRange(kind.width))
  }

  function Decode(kind: Kind, s: seq<Byte>): Value {
    Value(kind, Cast(kind, Joined(if kind.big then Reversed(s) else s)))
  }

  // ----- round trips -----------------------------------------------------------------

  lemma {:induction false} ReversedAppend(s: seq<Byte>, b: Byte)
    ensures Reversed(s + [b]) == [b] + Reversed(s)
  {
    if s == [] {
      assert s + [b] == [b];
    } else {
      assert (s + [b])[1..] == s[1..] + [b];
      ReversedAppend(s[1..], b);
    }
  }

  lemma {:induction false} ReversedTwice(s: seq<Byte>)
    ensures Reversed(Reversed(s)) == s
  {
    if s != [] {
      ReversedAppend(Reversed(s[1..]), s[0]);
      ReversedTwice(s[1..]);
    }
  }

  lemma {:induction false} JoinedIsPattern(pattern: nat, n: nat)
    ensures Joined(LittleEndian(pattern, n)) == pattern % Power256(n)
  {
    if n != 0 {
      var s := LittleEndian(pattern, n);
      assert s[0] == Low(pattern) && s[1..] == LittleEndian(pattern / 256, n - 1);
      LowIsModulo(pattern);
      JoinedIsPattern(pattern / 256, n - 1);
      SplitModulo(pattern, Power256(n - 1));
    }
  }

  function Power256(n: nat): (p: nat)
    ensures p >= 1
  {
    if n == 0 then 1 else 256 * Power256(n - 1)
  }

  lemma SplitModulo(x: nat, p: nat)
    requires p >= 1
    ensures x % 256 + 256 * (x / 256 % p) == x % (256 * p)
  {
    var q, r := x / 256 / p, x / 256 % p;
    var low := x % 256 + 256 * r;
    assert x / 256 == q * p + r;
    assert x == q * (256 * p) + low by {
      assert 256 * (q * p) == q * (256 * p);
    }
    assert 256 * r + 255 < 256 * p;
    ModuloUnique(x, 256 * p, q, low);
  }

  lemma ModuloUnique(x: int, m: nat, q: int, r: nat)
    requires m >= 1 && x == q * m + r && r < m
    ensures x % m == r
  {
    var k := x / m - q;
    assert k * m == r - x % m;
    assert k >= 1 ==> k * m >= m;
    assert k <= -1 ==> k * m <= -(m as int);
  }

  lemma PowerOfWidth(w: Width)
    ensures Power256(Size(w)) == if w == Bits24 then 0x100_0000 else TypeRange(w)
  {
    assert Power256(4) == 0x1_0000_0000;
    assert Power256(8) == 256 * (256 * (256 * (256 * Power256(4))));
  }

  /** Reading back written bytes gives the low bytes of the value, cast to its type. */
  lemma ReadBack(v: Value)
    ensures Decode(v.kind, Encode(v)) ==
            Value(v.kind, Cast(v.kind, Pattern(v.kind.width, v.x) % Power256(Size(v.kind.width))))
  {
    var n, pattern := Size(v.kind.width), Pattern(v.kind.width, v.x);
    ReversedTwice(LittleEndian(pattern, n));
    JoinedIsPattern(pattern, n);
  }

  /** Casting to the unsigned type and back is the identity. */
  lemma CastUndone(x: int, signed: bool, range: nat)
    requires range > 0 && range % 2 == 0 && Within(x, signed, range)
    ensures (if signed then AsSigned(x % range, range) else x % range) == x
  {
    if x < 0 {
      ModuloUnique(x, range, -1, x + range);
    } else {
      ModuloUnique(x, range, 0, x);
    }
  }

  lemma Cast24Exactly(x: int, signed: bool, big: bool)
    requires Within(x, signed, 0x1_0000_0000)
    ensures Cast(Kind(Bits24, signed, big), x % 0x1_0000_0000 % 0x100_0000) == x <==> Within(x, signed, 0x100_0000)
  {
    assert x % 0x1_0000_0000 % 0x100_0000 == x % 0x100_0000;
  }

  lemma PatternIsModulo(w: Width, x: int)
    ensures Pattern(w, x) == x % TypeRange(w)
  {
    match w {
      case Bits8 => {}
      case Bits16 => {}
      case Bits24 => {}
      case Bits32 => {}
      case Bits64 => {}
    }
  }

  lemma CastPlainExactly(kind: Kind, x: int)
    requires InType(Value(kind, x)) && kind.width != Bits24
    ensures Cast(kind, Pattern(kind.width, x) % Power256(Size(kind.width))) == x && InRange(Value(kind, x))
  {
    var range := TypeRange(kind.width);
    PowerOfWidth(kind.width);
    PatternIsModulo(kind.width, x);
    CastUndone(x, kind.signed, range);
    ModuloUnique(x % range, range, 0, x % range);
  }

  lemma CastExactly(kind: Kind, x: int)
    requires InType(Value(kind, x))
    ensures Cast(kind, Pattern(kind.width, x) % Power256(Size(kind.width))) == x <==> InRange(Value(kind, x))
  {
    if kind.width == Bits24 {
      PowerOfWidth(Bits24);
      Cast24Exactly(x, kind.signed, kind.big);
    } else {
      CastPlainExactly(kind, x);
    }
  }

  /** A typed value survives being written and read exactly when it is in the range of its name. */
  lemma RoundTripExactly(v: Value)
    requires InType(v)
    ensures Decode(v.kind, Encode(v)) == v <==> InRange(v)
  {
    ReadBack(v);
    CastExactly(v.kind, v.x);
  }

  // ----- which byte is which --------------------------------------------------------------

  lemma {:induction false} LittleEndianDigit(pattern: nat, n: nat, i: nat)
    requires i < n
    ensures LittleEndian(pattern, n)[i] == pattern / Power256(i) % 256
  {
    if i == 0 {
      LowIsModulo(pattern);
    } else {
      LittleEndianDigit(pattern / 256, n - 1, i - 1);
      NestedQuotient(pattern, 256, Power256(i - 1));
    }
  }

  lemma {:induction false} ReversedAt(s: seq<Byte>, i: nat)
    requires i < |s|
    ensures Reversed(s)[i] == s[|s| - 1 - i]
  {
    if i < |s| - 1 { ReversedAt(s[1..], i); }
  }

  /** The place of byte i: counted from the low end in little endian, and from the high end in big endian. */
  function Place(kind: Kind, i: nat): nat
    requires i < Size(kind.width)
  {
    if kind.big then Size(kind.width) - 1 - i else i
  }

  /** Byte i of a written value is the digit to base 256 at its place. */
  lemma EncodedDigit(v: Value, i: nat)
    requires i < Size(v.kind.width)
    ensures Encode(v)[i] == Pattern(v.kind.width, v.x) / Power256(Place(v.kind, i)) % 256
  {
    var n, pattern := Size(v.kind.width), Pattern(v.kind.width, v.x);
    LittleEndianDigit(pattern, n, Place(v.kind, i));
    if v.kind.big { ReversedAt(LittleEndian(pattern, n), i); }
  }

  lemma {:induction false} JoinedDigit(s: seq<Byte>, i: nat)
    requires i < |s|
    ensures Joined(s) / Power256(i) % 256 == s[i]
  {
    var rest := Joined(s[1..]);
    if i > 0 {
      JoinedDigit(s[1..], i - 1);
      NestedQuotient(Joined(s), 256, Power256(i - 1));
      assert Joined(s) / 256 == rest;
    }
  }

  /** Byte i of what is read, as an unsigned number, is the digit at its place. */
  lemma DecodedDigit(kind: Kind, s: seq<Byte>, i: nat)
    requires |s| == Size(kind.width) && i < |s| && !kind.signed
    ensures Decode(kind, s).x >= 0 && Decode(kind, s).x / Power256(Place(kind, i)) % 256 == s[i]
  {
    if kind.big {
      JoinedDigit(Reversed(s), Place(kind, i));
      ReversedAt(s, Place(kind, i));
    } else {
      JoinedDigit(s, i);
    }
  }

  /** And a signed number is the unsigned one, less the range of its name from the middle on. */
  lemma DecodedSigned(kind: Kind, s: seq<Byte>)
    requires |s| == Size(kind.width) && kind.signed
    ensures var u, range := Decode(kind.(signed := false), s).x, Power256(Size(kind.width));
            0 <= u < range && Decode(kind, s).x == if u < range / 2 then u else u - range
  {
    var p := Joined(if kind.big then Reversed(s) else s);
    JoinedBelow(if kind.big then Reversed(s) else s);
    PowerOfWidth(kind.width);
    match kind.width {
      case Bits24 => {}
      case _ => {}
    }
  }

  lemma {:induction false} JoinedBelow(s: seq<Byte>)
    ensures Joined(s) < Power256(|s|)
  {
    if s != [] { JoinedBelow(s[1..]); }
  }

  // ----- lists of values ------------------------------------------------------------------

  function EncodeAll(values: seq<Value>): seq<Byte> {
    if values == [] then [] else Encode(values[0]) + EncodeAll(values[1..])
  }

  lemma {:induction false} EncodeAllAppend(values: seq<Value>, v: Value)
    ensures EncodeAll(values + [v]) == EncodeAll(values) + Encode(v)
  {
    if values == [] {
      assert values + [v] == [v];
      assert EncodeAll([v]) == Encode(v) + EncodeAll([]);
    } else {
      assert (values + [v])[1..] == values[1..] + [v];
      EncodeAllAppend(values[1..], v);
      assert Encode(values[0]) + (EncodeAll(values[1..]) + Encode(v)) == EncodeAll(values) + Encode(v);
    }
  }

  lemma {:induction false} EncodeAllPrefix(values: seq<Value>, n: nat)
    requires n <= |values|
    ensures |EncodeAll(values[..n])| <= |EncodeAll(values)|
  {
    if n > 0 {
      assert values[..n][1..] == values[1..][..n - 1];
      EncodeAllPrefix(values[1..], n - 1);
    }
  }

  /** Reading values of the given kinds one after the other: nothing if the bytes run out. */
  function DecodeAll(kinds: seq<Kind>, s: seq<Byte>): Option<seq<Value>> {
    if kinds == [] then Some([])
    else
      var n := Size(kinds[0].width);
      if |s| < n then None
      else
        Prepend([Decode(kinds[0], s[..n])], DecodeAll(kinds[1..], s[n..]))
  }

  function Prepend(values: seq<Value>, rest: Option<seq<Value>>): Option<seq<Value>> {
    if rest.None? then None else Some(values + rest.value)
  }

  lemma PrependInjective(v: Value, rest: Option<seq<Value>>, values: seq<Value>)
    requires values != []
    ensures Prepend([v], rest) == Some(values) <==> v == values[0] && rest == Some(values[1..])
  {
    if rest.Some? {
      assert ([v] + rest.value)[0] == v && ([v] + rest.value)[1..] == rest.value;
      assert values == [values[0]] + values[1..];
    }
  }

  lemma PrependNone(values: seq<Value>, rest: Option<seq<Value>>)
    ensures Prepend([], rest) == rest && Prepend(values, Some([])) == Some(values)
  {
    if rest.Some? { assert [] + rest.value == rest.value; }
    assert values + [] == values;
  }

  lemma PrependTwice(values: seq<Value>, v: Value, rest: Option<seq<Value>>)
    ensures Prepend(values, Prepend([v], rest)) == Prepend(values + [v], rest)
  {
    if rest.Some? { assert values + ([v] + rest.value) == values + [v] + rest.value; }
  }

  function Kinds(values: seq<Value>): (kinds: seq<Kind>)
    ensures |kinds| == |values|
    ensures forall i :: 0 <= i < |kinds| ==> kinds[i] == values[i].kind
  {
    if values == [] then [] else [values[0].kind] + Kinds(values[1..])
  }

  predicate AllInType(values: seq<Value>) { forall i | 0 <= i < |values| :: InType(values[i]) }

  predicate AllInRange(values: seq<Value>) { forall i | 0 <= i < |values| :: InRange(values[i]) }

  lemma AllInRangeStep(values: seq<Value>)
    requires values != []
    ensures AllInRange(values) <==> InRange(values[0]) && AllInRange(values[1..])
  {
    assert values == [values[0]] + values[1..];
  }

  /** A value is read from the first bytes, and the others from what follows. */
  lemma DecodeFrom(kinds: seq<Kind>, b: seq<Byte>, rest: seq<Byte>)
    requires kinds != [] && |b| == Size(kinds[0].width)
    ensures DecodeAll(kinds, b + rest) == Prepend([Decode(kinds[0], b)], DecodeAll(kinds[1..], rest))
  {
    assert (b + rest)[..|b|] == b && (b + rest)[|b|..] == rest;
  }

  lemma DecodeFirst(values: seq<Value>, tail: seq<Byte>)
    requires values != []
    ensures DecodeAll(Kinds(values), EncodeAll(values) + tail) ==
            Prepend([Decode(values[0].kind, Encode(values[0]))],
                    DecodeAll(Kinds(values[1..]), EncodeAll(values[1..]) + tail))
  {
    Regroup(Encode(values[0]), EncodeAll(values[1..]), tail);
    assert Kinds(values)[1..] == Kinds(values[1..]);
    DecodeFrom(Kinds(values), Encode(values[0]), EncodeAll(values[1..]) + tail);
  }

  /** Any list of values written and read back is unchanged exactly when each is in its range. */
  lemma {:induction false} ListRoundTripExactly(values: seq<Value>, tail: seq<Byte>)
    requires AllInType(values)
    ensures DecodeAll(Kinds(values), EncodeAll(values) + tail) == Some(values) <==> AllInRange(values)
    ensures DecodeAll(Kinds(values), EncodeAll(values) + tail).Some?
  {
    if values != [] {
      var rest := DecodeAll(Kinds(values[1..]), EncodeAll(values[1..]) + tail);
      DecodeFirst(values, tail);
      ListRoundTripExactly(values[1..], tail);
      RoundTripExactly(values[0]);
      AllInRangeStep(values);
      PrependInjective(Decode(values[0].kind, Encode(values[0])), rest, values);
    }
  }

  /** ListRoundTripExactly without bytes after the values. */
  lemma WholeRoundTripExactly(values: seq<Value>)
    requires AllInType(values)
    ensures DecodeAll(Kinds(values), EncodeAll(values)).Some?
    ensures DecodeAll(Kinds(values), EncodeAll(values)) == Some(values) <==> AllInRange(values)
  {
    ListRoundTripExactly(values, []);
    assert EncodeAll(values) + [] == EncodeAll(values);
  }
}
