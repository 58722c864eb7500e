/**
 Searching a byte reader for a masked 32-bit pattern: the generic shift-register
 scan, the skipping scan used for the start-code prefix (Annex B of ITU-T H.264),
 and the function that chooses between them.
 */
module ByteScan {
  import opened Options

  type Octet = bv8

  const START_MASK: bv32 := 0xffffff00
  const START_PATTERN: bv32 := 0x00000100

  /** Four bytes read left to right. */
  function Word(data: seq<Octet>, i: nat): bv32
    requires i + 4 <= |data|
  {
    Join(data[i], data[i + 1], data[i + 2], data[i + 3])
  }

  function Join(a: Octet, b: Octet, c: Octet, d: Octet): bv32 {
    ((a as bv32) << 24) | ((b as bv32) << 16) | ((c as bv32) << 8) | (d as bv32)
  }

  predicate MatchAt(data: seq<Octet>, mask: bv32, pattern: bv32, i: nat) {
    i + 4 <= |data| && Hits(Word(data, i), mask, pattern)
  }

  predicate Hits(word: bv32, mask: bv32, pattern: bv32) { word & mask == pattern }

  /** `r` is the least offset at which the pattern matches, or None if there is none. */
  ghost predicate IsLeastMatch(data: seq<Octet>, mask: bv32, pattern: bv32, r: Option<nat>) {
    match r
    case None => forall i: nat :: !MatchAt(data, mask, pattern, i)
    case Some(k) => MatchAt(data, mask, pattern, k) && forall i: nat :: i < k ==> !MatchAt(data, mask, pattern, i)
  }

  // ----- the skipping scan ------------------------------------------------------

  lemma StartCode(a: Octet, b: Octet, c: Octet, d: Octet)
    ensures Join(a, b, c, d) & START_MASK == START_PATTERN <==> a == 0 && b == 0 && c == 1
    ensures a == 0 && b == 0 && c == 1 ==> Join(a, b, c, d) == (1 << 8) | (d as bv32)
  {
  }

  lemma StartCodeAt(data: seq<Octet>, i: nat)
    requires i + 4 <= |data|
    ensures MatchAt(data, START_MASK, START_PATTERN, i) <==> data[i] == 0 && data[i + 1] == 0 && data[i + 2] == 1
  {
    StartCode(data[i], data[i + 1], data[i + 2], data[i + 3]);
  }

  /** _scan_for_start_code() before its result is narrowed to a gint. */
  method ScanForStartCode(data: seq<Octet>) returns (r: Option<nat>)
    requires |data| >= 4
    ensures IsLeastMatch(data, START_MASK, START_PATTERN, r)
  {
    var p := 0;
    while p <= |data| - 4
      invariant forall i: nat :: i < p ==> !MatchAt(data, START_MASK, START_PATTERN, i)
    {
      StartCodeAt(data, p);
      if p + 5 <= |data| { StartCodeAt(data, p + 1); }
      if p + 6 <= |data| { StartCodeAt(data, p + 2); }
      if data[p + 2] > 1 {
        p := p + 3;
      } else if data[p + 1] != 0 {
        p := p + 2;
      } else if data[p] != 0 || data[p + 2] != 1 {
        p := p + 1;
      } else {
        return Some(p);
      }
    }
    return None;
  }

  // ----- the shift register --------------------------------------------------------

  function Shift(state: bv32, b: Octet): bv32 { (state << 8) | (b as bv32) }

  lemma FourShifts(state: bv32, a: Octet, b: Octet, c: Octet, d: Octet)
    ensures Shift(Shift(Shift(Shift(state, a), b), c), d) == Join(a, b, c, d)
  {
  }

  /** The register after the first `n` bytes. */
  function Register(start: bv32, data: seq<Octet>, n: nat): bv32
    requires n <= |data|
  {
    if n == 0 then start else Shift(Register(start, data, n - 1), data[n - 1])
  }

  lemma RegisterHoldsWord(start: bv32, data: seq<Octet>, i: nat)
    requires i + 4 <= |data|
    ensures Register(start, data, i + 4) == Word(data, i)
  {
    var s := Register(start, data, i);
    assert Register(start, data, i + 1) == Shift(s, data[i]);
    assert Register(start, data, i + 2) == Shift(Shift(s, data[i]), data[i + 1]);
    assert Register(start, data, i + 3) == Shift(Shift(Shift(s, data[i]), data[i + 1]), data[i + 2]);
    FourShifts(s, data[i], data[i + 1], data[i + 2], data[i + 3]);
  }

  lemma RegisterMatches(start: bv32, data: seq<Octet>, mask: bv32, pattern: bv32, i: nat)
    requires i + 4 <= |data|
    ensures MatchAt(data, mask, pattern, i) <==> Hits(Register(start, data, i + 4), mask, pattern)
    ensures Word(data, i) == Register(start, data, i + 4)
  {
    RegisterHoldsWord(start, data, i);
  }

  method GenericScan(data: seq<Octet>, mask: bv32, pattern: bv32) returns (r: Option<nat>, value: bv32)
    ensures IsLeastMatch(data, mask, pattern, r)
    ensures r.Some? ==> value == Word(data, r.value)
  {
    var start := !pattern;
    var state := start;
    var i := 0;
    while i < |data|
      invariant 0 <= i <= |data| && state == Register(start, data, i)
      invariant forall k: nat :: k + 4 <= i ==> !MatchAt(data, mask, pattern, k)
    {
      state := Shift(state, data[i]);
      assert state == Register(start, data, i + 1);
      if i >= 3 { RegisterMatches(start, data, mask, pattern, i - 3); }
      if Hits(state, mask, pattern) {
        if i >= 3 { return Some(i - 3), state; }
      }
      i := i + 1;
    }
    return None, 0;
  }

  lemma LeastMatchUnique(data: seq<Octet>, mask: bv32, pattern: bv32, r: Option<nat>, t: Option<nat>)
    requires IsLeastMatch(data, mask, pattern, r) && IsLeastMatch(data, mask, pattern, t)
    ensures r == t
  {
    assert r.Some? ==> MatchAt(data, mask, pattern, r.value);
    assert t.Some? ==> MatchAt(data, mask, pattern, t.value);
  }

  // ----- the chooser -------------------------------------------------------------------

  /** The narrowing of a pointer difference below 2^32 to a 32-bit signed integer. */
  function ToGint(n: nat): int { if n % 0x1_0000_0000 < 0x8000_0000 then n % 0x1_0000_0000
                                 else n % 0x1_0000_0000 - 0x1_0000_0000 }

  /** Found has the offset and, where asked for, the four bytes; Stray is a read outside the data. */
  datatype Scan = Missing | Found(offset: nat, value: Option<bv32>) | Stray(index: int)

  /** The answer the documentation promises for the least match `m` of a window. */
  function Promised(window: seq<Octet>, offset: nat, wanted: bool, m: Option<nat>): Scan
    requires m.Some? ==> m.value + 4 <= |window|
  {
    if m.None? then Missing
    else Found(offset + m.value, if wanted then Some(Word(window, m.value)) else None)
  }

  /**
   _masked_scan_uint32_peek(); `m` is the least match in the window it is asked to search,
   and `wanted` whether the caller passed a place for the value. The promised answer is
   given exactly unless the fast path has to fetch the value of a match at or beyond 2 GiB,
   which it does at a negative index.
   */
  method MaskedScan(data: seq<Octet>, offset: nat, size: nat, mask: bv32, pattern: bv32, wanted: bool)
    returns (r: Scan, ghost m: Option<nat>)
    requires |data| < 0x1_0000_0000
    ensures size == 0 || offset + size > |data| ==> r == Missing
    ensures size > 0 && offset + size <= |data| ==>
              var window := data[offset..offset + size];
              var late := wanted && m.Some? && m.value >= 0x8000_0000 && pattern == START_PATTERN && mask == START_MASK;
              && IsLeastMatch(window, mask, pattern, m)
              && (r == Promised(window, offset, wanted, m) <==> !late)
              && (late ==> r.Stray? && r.index < 0)
  {
    if size == 0 || offset + size > |data| { return Missing, None; }
    var window := data[offset..offset + size];
    if size < 4 {
      assert IsLeastMatch(window, mask, pattern, None);
      return Missing, None;
    }
    if pattern == START_PATTERN && mask == START_MASK {
      var at := ScanForStartCode(window);
      if at.None? { return Missing, at; }
      var ret := ToGint(at.value);
      if !wanted { return Found(ToGuint(ret + offset), None), at; }
      if ret + 3 < 0 { return Stray(ret + 3), at; }
      StartCode(window[ret], window[ret + 1], window[ret + 2], window[ret + 3]);
      return Found(ToGuint(ret + offset), Some((1 << 8) | (window[ret + 3] as bv32))), at;
    }
    var at, value := GenericScan(window, mask, pattern);
    if at.None? { return Missing, at; }
    return Found(offset + at.value, if wanted then Some(value) else None), at;
  }

  /** The sum of a signed and an unsigned offset, as an unsigned 32-bit number. */
  function ToGuint(n: int): nat
    requires -0x8000_0000 <= n < 0x1_0000_0000
  {
    if n < 0 then n + 0x1_0000_0000 else n
  }

  /** 2 GiB of zeros before a start code: the first match is beyond what a gint can hold. */
  lemma LateStartCode()
    ensures var data: seq<Octet> := seq(0x8000_0004, i => if i == 0x8000_0002 then 1 else 0);
            IsLeastMatch(data, START_MASK, START_PATTERN, Some(0x8000_0000))
  {
    var data: seq<Octet> := seq(0x8000_0004, i => if i == 0x8000_0002 then 1 else 0);
    StartCodeAt(data, 0x8000_0000);
    forall i: nat | i < 0x8000_0000 ensures !MatchAt(data, START_MASK, START_PATTERN, i) {
      StartCodeAt(data, i);
    }
  }
}
