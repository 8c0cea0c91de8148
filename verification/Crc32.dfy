/** The 32-bit CRC of src/helpers/crc32.cpp, its bit-serial definition, and what the
    playlist checksum of src/remoteControlCommands/getPlaylistsCommand.cpp relies on. */
module Crc32 {

  /** Exclusive or by name, so that proofs can treat it as an abstract group operation. */
  function Xor(x: bv32, y: bv32): bv32 { x ^ y }

  const POLYNOMIAL: bv32 := 0xEDB88320
  const ALL_ONES: bv32 := 0xFFFFFFFF

  // ---------------------------------------------------------------- bit-serial definition

  /** One shift of the reflected register: the bit leaving on the right selects the polynomial. */
  function Shift(c: bv32): bv32 {
    if c & 1 == 1 then POLYNOMIAL ^ (c >> 1) else c >> 1
  }

  function Shifts(c: bv32, n: nat): bv32
    decreases n
  {
    if n == 0 then c else Shift(Shifts(c, n - 1))
  }

  /** Eight shifts with no message bit coming in: a table entry. */
  function Shift8(c: bv32): bv32 {
    Shift(Shift(Shift(Shift(Shift(Shift(Shift(Shift(c))))))))
  }

  function BitValue(b: bool): bv32 {
    if b then 1 else 0
  }

  /** The shift register taking in one message bit. */
  function FeedBit(c: bv32, bit: bool): bv32 {
    Shift(Xor(c, BitValue(bit)))
  }

  function FeedBits(c: bv32, bits: seq<bool>): bv32
    decreases |bits|
  {
    if bits == [] then c else FeedBits(FeedBit(c, bits[0]), bits[1..])
  }

  /** The bits of a byte in transmission order: least significant first. */
  function BitsOfByte(b: bv8): (bits: seq<bool>)
    ensures |bits| == 8
  {
    [b & 1 != 0, b & 2 != 0, b & 4 != 0, b & 8 != 0,
     b & 16 != 0, b & 32 != 0, b & 64 != 0, b & 128 != 0]
  }

  function Bits(data: seq<bv8>): (bits: seq<bool>)
    ensures |bits| == 8 * |data|
  {
    if data == [] then [] else BitsOfByte(data[0]) + Bits(data[1..])
  }

  /** The CRC of section 8 of RFC 1952, bit by bit: complement, feed, complement. */
  function Crc(crc: bv32, data: seq<bv8>): bv32 {
    Xor(FeedBits(Xor(crc, ALL_ONES), Bits(data)), ALL_ONES)
  }

  // ---------------------------------------------------------------- algebra of one shift

  function Low(w: bv32): bv32 { w & 1 }
  function High(w: bv32): bv32 { w & 0xFFFFFFFE }
  function Half(w: bv32): bv32 { w >> 1 }

  lemma XorParts(x: bv32, y: bv32)
    ensures (x ^ y) >> 1 == (x >> 1) ^ (y >> 1)
    ensures (x ^ y) & 1 == (x & 1) ^ (y & 1)
  {}

  lemma LowBit(x: bv32)
    ensures x & 1 == 0 || x & 1 == 1
  {}

  lemma XorRegroup(p: bv32, x: bv32, y: bv32)
    ensures p ^ (x ^ y) == (p ^ x) ^ y == x ^ (p ^ y)
    ensures x ^ y == (p ^ x) ^ (p ^ y)
  {}

  lemma XorAssociative(p: bv32, x: bv32, y: bv32)
    ensures Xor(p, Xor(x, y)) == Xor(Xor(p, x), y)
  {}

  lemma XorCancel(x: bv32, y: bv32, b: bv32)
    requires Xor(x, b) == Xor(y, b)
    ensures x == y
  {}

  lemma ShiftOfXor(x: bv32, y: bv32)
    ensures Shift(x ^ y) == Shift(x) ^ Shift(y)
  {
    XorParts(x, y);
    LowBit(x);
    LowBit(y);
    XorRegroup(POLYNOMIAL, x >> 1, y >> 1);
  }

  lemma ShiftLinear(x: bv32, y: bv32)
    ensures Shift(Xor(x, y)) == Xor(Shift(x), Shift(y))
  {
    hide Shift;
    ShiftOfXor(x, y);
  }

  lemma ShiftInjective(x: bv32, y: bv32)
    requires Shift(x) == Shift(y)
    ensures x == y
  {}

  lemma SplitLowBit(w: bv32)
    ensures w == Xor(Low(w), High(w))
    ensures Shift(High(w)) == Half(w)
  {}

  /** Of a word xored into the register, a shift looks at the lowest bit and moves the rest along. */
  lemma AbsorbBit(s: bv32, w: bv32)
    ensures Shift(Xor(s, w)) == Xor(Shift(Xor(s, Low(w))), Half(w))
  {
    hide *;
    SplitLowBit(w);
    XorAssociative(s, Low(w), High(w));
    ShiftLinear(Xor(s, Low(w)), High(w));
  }

  /** Four shifts of a register with a word xored in: its four low bits enter one at a time. */
  lemma AbsorbFour(c: bv32, w: bv32)
    ensures Shift(Shift(Shift(Shift(Xor(c, w))))) == Xor(FeedLowFour(c, w), w >> 4)
  {
    HalfFour(w);
    hide Shift, Xor, Low, Half;
    var c1, w1 := Shift(Xor(c, Low(w))), Half(w);
    AbsorbBit(c, w);
    var c2, w2 := Shift(Xor(c1, Low(w1))), Half(w1);
    AbsorbBit(c1, w1);
    var c3, w3 := Shift(Xor(c2, Low(w2))), Half(w2);
    AbsorbBit(c2, w2);
    AbsorbBit(c3, w3);
  }

  lemma HalfFour(w: bv32)
    ensures Half(Half(Half(Half(w)))) == w >> 4
  {}

  function FeedLowFour(c: bv32, w: bv32): bv32 {
    var c1, w1 := Shift(Xor(c, Low(w))), Half(w);
    var c2, w2 := Shift(Xor(c1, Low(w1))), Half(w1);
    var c3, w3 := Shift(Xor(c2, Low(w2))), Half(w2);
    Shift(Xor(c3, Low(w3)))
  }

  // ---------------------------------------------------------------- table-driven form

  function Entry(i: nat): bv32
    requires i < 256
  {
    Shift8(i as bv32)
  }

  ghost predicate IsTable(t: array<bv32>)
    reads t
  {
    t.Length == 256 && forall i :: 0 <= i < 256 ==> t[i] == Entry(i)
  }

  /** The table, filled by the two nested loops of its initializer. */
  method BuildTable() returns (t: array<bv32>)
    ensures fresh(t) && IsTable(t)
  {
    hide Entry;
    t := new bv32[256];
    for i := 0 to 256
      invariant forall j :: 0 <= j < i ==> t[j] == Entry(j)
    {
      var c := i as bv32;
      for k := 0 to 8
        invariant c == Shifts(i as bv32, k)
        invariant forall j :: 0 <= j < i ==> t[j] == Entry(j)
      {
        c := if c & 1 == 1 then POLYNOMIAL ^ (c >> 1) else c >> 1;
      }
      t[i] := c;
      EntryIsEightShifts(i);
    }
  }

  lemma EntryIsEightShifts(i: nat)
    requires i < 256
    ensures Shifts(i as bv32, 8) == Entry(i)
  {
    EightShifts(i as bv32);
  }

  lemma IndexRange(c: bv32, b: bv8)
    ensures TableIndex(c, b) as int < 256 && Entry(TableIndex(c, b) as int) == Shift8(TableIndex(c, b))
  {
    hide Shift8;
  }

  lemma EightShifts(c: bv32)
    ensures Shifts(c, 8) == Shift8(c)
  {
    hide Shift;
    assert Shifts(c, 2) == Shift(Shift(c));
    assert Shifts(c, 4) == Shift(Shift(Shifts(c, 2)));
    assert Shifts(c, 6) == Shift(Shift(Shifts(c, 4)));
    assert Shifts(c, 8) == Shift(Shift(Shifts(c, 6)));
  }

  /** One message byte through the lookup table, as the loop body of Crc32Update does it. */
  function ByteStep(c: bv32, b: bv8): bv32 {
    Xor(Shift8(TableIndex(c, b)), c >> 8)
  }

  function TableIndex(c: bv32, b: bv8): bv32 {
    (c ^ (b as bv32)) & 0xFF
  }

  lemma SplitByte(c: bv32, w: bv32)
    requires w <= 0xFF
    ensures Xor(c, w) == Xor((c ^ w) & 0xFF, c & 0xFFFFFF00)
    ensures (w >> 4) >> 4 == 0
    ensures ((c & 0xFFFFFF00) >> 4) >> 4 == c >> 8
  {}

  lemma FeedZeros(c: bv32, w: bv32)
    requires w & 0xF == 0
    ensures FeedLowFour(c, w) == Shift(Shift(Shift(Shift(c))))
  {
    assert Low(w) == 0 && Low(Half(w)) == 0 && Low(Half(Half(w))) == 0 && Low(Half(Half(Half(w)))) == 0;
    assert forall x: bv32 {:trigger Xor(x, 0)} :: Xor(x, 0) == x;
    hide Shift, Xor, Low, Half;
  }

  /** A word xored into the register, eight shifts later: its low byte was absorbed, the rest moved down. */
  lemma AbsorbByte(c: bv32, w: bv32)
    ensures Shift8(Xor(c, w)) == Xor(FeedLowFour(FeedLowFour(c, w), w >> 4), (w >> 4) >> 4)
  {
    hide Shift, Xor, FeedLowFour;
    AbsorbFour(c, w);
    AbsorbFour(FeedLowFour(c, w), w >> 4);
  }

  lemma ByteBits(b: bv8)
    ensures var w := b as bv32; var bits := BitsOfByte(b);
      && Low(w) == BitValue(bits[0]) && Low(Half(w)) == BitValue(bits[1])
      && Low(Half(Half(w))) == BitValue(bits[2]) && Low(Half(Half(Half(w)))) == BitValue(bits[3])
      && Low(w >> 4) == BitValue(bits[4]) && Low(Half(w >> 4)) == BitValue(bits[5])
      && Low(Half(Half(w >> 4))) == BitValue(bits[6]) && Low(Half(Half(Half(w >> 4)))) == BitValue(bits[7])
      && w <= 0xFF
  {}

  lemma FeedFour(c: bv32, bits: seq<bool>)
    requires |bits| >= 4
    ensures FeedBits(c, bits) ==
            FeedBits(FeedBit(FeedBit(FeedBit(FeedBit(c, bits[0]), bits[1]), bits[2]), bits[3]), bits[4..])
  {
    hide FeedBit;
    var c1 := FeedBit(c, bits[0]);
    var c2 := FeedBit(c1, bits[1]);
    var c3 := FeedBit(c2, bits[2]);
    assert FeedBits(c, bits) == FeedBits(c1, bits[1..]);
    assert bits[1..][1..] == bits[2..] && bits[2..][1..] == bits[3..] && bits[3..][1..] == bits[4..];
    assert FeedBits(c1, bits[1..]) == FeedBits(c2, bits[2..]);
    assert FeedBits(c2, bits[2..]) == FeedBits(c3, bits[3..]);
  }

  lemma FeedByteBits(c: bv32, b: bv8)
    ensures FeedBits(c, BitsOfByte(b)) == FeedLowFour(FeedLowFour(c, b as bv32), (b as bv32) >> 4)
  {
    ByteBits(b);
    var bits := BitsOfByte(b);
    FeedFour(c, bits);
    hide Shift, Xor, Low, Half, BitValue;
    var d := FeedLowFour(c, b as bv32);
    FeedFour(d, bits[4..]);
    assert bits[4..][4..] == [];
  }

  lemma XorZero(x: bv32)
    ensures Xor(x, 0) == x
  {}

  lemma LowByteFeeds(c: bv32, w: bv32)
    requires w <= 0xFF
    ensures Shift8(Xor(c, w)) == FeedLowFour(FeedLowFour(c, w), w >> 4)
  {
    SplitByte(c, w);
    XorZero(FeedLowFour(FeedLowFour(c, w), w >> 4));
    hide *;
    AbsorbByte(c, w);
  }

  lemma HighBytesMove(low: bv32, c: bv32)
    ensures Shift8(Xor(low, c & 0xFFFFFF00)) == Xor(Shift8(low), c >> 8)
  {
    var high := c & 0xFFFFFF00;
    SplitByte(c, 0);
    assert high & 0xF == 0 && (high >> 4) & 0xF == 0;
    AbsorbByte(low, high);
    FeedZeros(low, high);
    FeedZeros(FeedLowFour(low, high), high >> 4);
    hide Shift, FeedLowFour, Xor;
  }

  lemma ByteIsSmall(b: bv8)
    ensures b as bv32 <= 0xFF
  {}

  /** One table look-up does what eight bits through the shift register do. */
  lemma ByteStepIsEightBits(c: bv32, b: bv8)
    ensures ByteStep(c, b) == FeedBits(c, BitsOfByte(b))
  {
    ByteIsSmall(b);
    SplitByte(c, b as bv32);
    hide Xor, Shift8, Shift, FeedBits, BitsOfByte;
    FeedByteBits(c, b);
    LowByteFeeds(c, b as bv32);
    HighBytesMove((c ^ (b as bv32)) & 0xFF, c);
  }

  lemma {:induction false} BitsConcat(a: seq<bv8>, b: seq<bv8>)
    ensures Bits(a + b) == Bits(a) + Bits(b)
  {
    hide BitsOfByte;
    if a == [] {
      assert a + b == b;
    } else {
      assert (a + b)[1..] == a[1..] + b;
      BitsConcat(a[1..], b);
      assert Bits(a + b) == BitsOfByte(a[0]) + (Bits(a[1..]) + Bits(b));
    }
  }

  lemma BitsOne(b: bv8)
    ensures Bits([b]) == BitsOfByte(b)
  {
    assert [b][1..] == [];
  }

  /** The checksum loop: table look-ups compute exactly the bit-serial CRC. */
  method Crc32Update(table: array<bv32>, crc: bv32, data: seq<bv8>) returns (r: bv32)
    requires IsTable(table)
    ensures r == Crc(crc, data)
  {
    var start := Xor(crc, ALL_ONES);
    var c := start;
    assert data[..0] == [] && FeedBits(start, []) == start;
    hide Xor, TableIndex, Entry, Shift8, FeedBits, Bits, BitsOfByte;
    for i := 0 to |data|
      invariant c == FeedBits(start, Bits(data[..i]))
    {
      var index := TableIndex(c, data[i]);
      IndexRange(c, data[i]);
      NextByte(start, data, i);
      c := Xor(table[index as int], c >> 8);
    }
    assert data[..|data|] == data;
    r := Xor(c, ALL_ONES);
  }

  lemma NextByte(c: bv32, data: seq<bv8>, i: nat)
    requires i < |data|
    ensures FeedBits(c, Bits(data[..i + 1])) == ByteStep(FeedBits(c, Bits(data[..i])), data[i])
  {
    hide ByteStep, BitsOfByte;
    assert data[..i + 1] == data[..i] + [data[i]];
    BitsConcat(data[..i], [data[i]]);
    BitsOne(data[i]);
    FeedBitsConcat(c, Bits(data[..i]), BitsOfByte(data[i]));
    ByteStepIsEightBits(FeedBits(c, Bits(data[..i])), data[i]);
  }

  lemma {:induction false} FeedBitsConcat(c: bv32, a: seq<bool>, b: seq<bool>)
    ensures FeedBits(c, a + b) == FeedBits(FeedBits(c, a), b)
    decreases |a|
  {
    hide FeedBit;
    if a == [] {
      assert a + b == b;
    } else {
      assert (a + b)[1..] == a[1..] + b;
      FeedBitsConcat(FeedBit(c, a[0]), a[1..], b);
    }
  }

  /** Streaming: continuing from a checksum is checksumming the concatenation. */
  lemma Streaming(crc: bv32, a: seq<bv8>, b: seq<bv8>)
    ensures Crc(Crc(crc, a), b) == Crc(crc, a + b)
    ensures Crc(crc, []) == crc
  {
    var start := Xor(crc, ALL_ONES);
    XorTwice(crc);
    XorTwice(FeedBits(start, Bits(a)));
    assert FeedBits(start, Bits([])) == start;
    hide Xor, FeedBits, Bits;
    BitsConcat(a, b);
    FeedBitsConcat(start, Bits(a), Bits(b));
  }

  lemma XorTwice(x: bv32)
    ensures Xor(Xor(x, ALL_ONES), ALL_ONES) == x
  {}

  // ---------------------------------------------------------------- burst detection

  /** Whatever follows, different register values stay different. */
  lemma {:induction false} FeedBitsInjective(x: bv32, y: bv32, bits: seq<bool>)
    requires FeedBits(x, bits) == FeedBits(y, bits)
    ensures x == y
    decreases |bits|
  {
    if bits != [] {
      hide Xor, Shift;
      var b := BitValue(bits[0]);
      FeedBitsInjective(FeedBit(x, bits[0]), FeedBit(y, bits[0]), bits[1..]);
      ShiftInjective(Xor(x, b), Xor(y, b));
      XorCancel(x, y, b);
    }
  }

  /** The n lowest bits. */
  function Mask(n: nat): bv32 {
    if n == 0 then 0 else Longer(Mask(n - 1))
  }

  function Longer(mask: bv32): bv32 { (mask << 1) | 1 }

  lemma LongerKeepsPart(part: bv32, whole: bv32)
    requires part & whole == part
    ensures Longer(part) & Longer(whole) == Longer(part)
  {}

  lemma {:induction false} MaskIsPart(n: nat, k: nat)
    requires n <= k
    ensures Mask(n) & Mask(k) == Mask(n)
  {
    hide Longer;
    if n > 0 {
      MaskIsPart(n - 1, k - 1);
      LongerKeepsPart(Mask(n - 1), Mask(k - 1));
    }
  }

  lemma MaskOf31()
    ensures Mask(31) == 0x7FFFFFFF
  {
    assert Mask(7) == 0x7F by {
      assert Mask(4) == 0xF by { assert Mask(2) == 0x3; }
    }
    assert Mask(13) == 0x1FFF by {
      assert Mask(11) == 0x7FF by { assert Mask(9) == 0x1FF; }
    }
    assert Mask(19) == 0x7FFFF by {
      assert Mask(17) == 0x1FFFF by { assert Mask(15) == 0x7FFF; }
    }
    assert Mask(25) == 0x1FFFFFF by {
      assert Mask(23) == 0x7FFFFF by { assert Mask(21) == 0x1FFFFF; }
    }
    assert Mask(29) == 0x1FFFFFFF by {
      assert Mask(27) == 0x7FFFFFF;
    }
  }

  lemma PartIsSmall(part: bv32)
    requires part & 0x7FFFFFFF == part
    ensures part <= 0x7FFFFFFF
  {}

  lemma MaskStep(n: nat)
    requires 0 < n <= 32
    ensures Mask(n) == Longer(Mask(n - 1))
    ensures Mask(n - 1) <= 0x7FFFFFFF
  {
    MaskIsPart(n - 1, 31);
    MaskOf31();
    PartIsSmall(Mask(n - 1));
  }

  /** The registers agree in every position outside the mask. */
  predicate EqualAbove(x: bv32, y: bv32, mask: bv32) {
    x & !mask == y & !mask
  }

  lemma LeavingBit(u: bv32)
    ensures Shift(u) >> 31 == u & 1
  {}

  lemma EqualTop(x: bv32, y: bv32, mask: bv32)
    requires mask <= 0x7FFFFFFF && EqualAbove(x, y, mask)
    ensures x >> 31 == y >> 31
  {}

  lemma CancelPolynomial(x: bv32, y: bv32, mask: bv32)
    requires EqualAbove(POLYNOMIAL ^ x, POLYNOMIAL ^ y, mask)
    ensures EqualAbove(x, y, mask)
  {}

  lemma EqualBeforeShift(u: bv32, v: bv32, mask: bv32)
    requires EqualAbove(u >> 1, v >> 1, mask)
    ensures EqualAbove(u, v, Longer(mask))
  {}

  lemma UnshiftEqual(u: bv32, v: bv32, mask: bv32)
    requires mask <= 0x7FFFFFFF && EqualAbove(Shift(u), Shift(v), mask)
    ensures EqualAbove(u, v, Longer(mask))
    ensures u & 1 == v & 1
  {
    LeavingBit(u);
    LeavingBit(v);
    EqualTop(Shift(u), Shift(v), mask);
    if u & 1 == 1 {
      CancelPolynomial(u >> 1, v >> 1, mask);
    }
    hide EqualAbove, Longer;
    EqualBeforeShift(u, v, mask);
  }

  lemma EnteringBit(x: bv32, b: bool, mask: bv32)
    requires mask & 1 == 1
    ensures EqualAbove(Xor(x, BitValue(b)), x, mask)
    ensures Xor(x, BitValue(b)) & 1 == (x & 1) ^ BitValue(b)
  {}

  lemma SameEntering(low: bv32, a: bool, b: bool)
    requires low ^ BitValue(a) == low ^ BitValue(b)
    ensures a == b
  {}

  /** If after one bit the registers differ only in low positions, the bit that left was the same,
      and before it they differed in one more low position at most. */
  lemma StepBack(x: bv32, y: bv32, a: bool, b: bool, mask: bv32)
    requires mask <= 0x7FFFFFFF
    requires EqualAbove(FeedBit(x, a), FeedBit(y, b), mask)
    ensures EqualAbove(x, y, Longer(mask))
    ensures x == y ==> a == b
  {
    hide Xor, Shift, BitValue;
    UnshiftEqual(Xor(x, BitValue(a)), Xor(y, BitValue(b)), mask);
    var mask' := Longer(mask);
    assert mask' & 1 == 1;
    hide Longer;
    EnteringBit(x, a, mask');
    EnteringBit(y, b, mask');
    if x == y {
      SameEntering(x & 1, a, b);
    }
  }

  lemma StepBackMask(x: bv32, y: bv32, a: bool, b: bool, n: nat)
    requires 0 < n <= 32
    requires EqualAbove(FeedBit(x, a), FeedBit(y, b), Mask(n - 1))
    ensures EqualAbove(x, y, Mask(n))
    ensures x == y ==> a == b
  {
    hide EqualAbove, Mask, FeedBit, Longer;
    MaskStep(n);
    StepBack(x, y, a, b, Mask(n - 1));
  }

  lemma EqualAboveZero(x: bv32)
    ensures EqualAbove(x, x, Mask(0))
  {}

  /** At most 32 bits map injectively into the register. */
  lemma {:induction false} ShortMessageInjective(x: bv32, y: bv32, a: seq<bool>, b: seq<bool>)
    requires |a| == |b| <= 32
    requires FeedBits(x, a) == FeedBits(y, b)
    ensures EqualAbove(x, y, Mask(|a|))
    ensures x == y ==> a == b
    decreases |a|
  {
    if a == [] {
      EqualAboveZero(x);
    } else {
      hide EqualAbove, Mask, FeedBit;
      ShortMessageInjective(FeedBit(x, a[0]), FeedBit(y, b[0]), a[1..], b[1..]);
      StepBackMask(x, y, a[0], b[0], |a|);
      if x == y {
        assert a == [a[0]] + a[1..] && b == [b[0]] + b[1..];
      }
    }
  }

  ghost predicate DifferOnlyWithin<T>(a: seq<T>, b: seq<T>, from: nat, length: nat) {
    |a| == |b| && forall i :: 0 <= i < |a| && !(from <= i < from + length) ==> a[i] == b[i]
  }

  /** Every error burst of at most 32 bits changes the register, from any starting value. */
  lemma BurstChangesRegister(c: bv32, a: seq<bool>, b: seq<bool>, from: nat)
    requires a != b && DifferOnlyWithin(a, b, from, 32)
    ensures FeedBits(c, a) != FeedBits(c, b)
  {
    hide FeedBits;
    var lo := if from <= |a| then from else |a|;
    var hi := if from + 32 <= |a| then from + 32 else |a|;
    var before, after := a[..lo], a[hi..];
    assert b[..lo] == before && b[hi..] == after;
    assert a == before + (a[lo..hi] + after) && b == before + (b[lo..hi] + after);
    var d := FeedBits(c, before);
    FeedBitsConcat(c, before, a[lo..hi] + after);
    FeedBitsConcat(c, before, b[lo..hi] + after);
    FeedBitsConcat(d, a[lo..hi], after);
    FeedBitsConcat(d, b[lo..hi], after);
    if FeedBits(c, a) == FeedBits(c, b) {
      FeedBitsInjective(FeedBits(d, a[lo..hi]), FeedBits(d, b[lo..hi]), after);
      ShortMessageInjective(d, d, a[lo..hi], b[lo..hi]);
      assert false;
    }
  }

  lemma {:induction false} BitsAt(data: seq<bv8>, q: nat, r: nat)
    requires q < |data| && r < 8
    ensures Bits(data)[8 * q + r] == BitsOfByte(data[q])[r]
  {
    hide BitsOfByte;
    if q > 0 {
      BitsAt(data[1..], q - 1, r);
    }
  }

  lemma BitsOfByteInjective(x: bv8, y: bv8)
    requires BitsOfByte(x) == BitsOfByte(y)
    ensures x == y
  {
    var s, t := BitsOfByte(x), BitsOfByte(y);
    assert s[0] == t[0] && s[1] == t[1] && s[2] == t[2] && s[3] == t[3];
    assert s[4] == t[4] && s[5] == t[5] && s[6] == t[6] && s[7] == t[7];
  }

  lemma {:induction false} BitsInjective(a: seq<bv8>, b: seq<bv8>)
    requires |a| == |b| && Bits(a) == Bits(b)
    ensures a == b
  {
    forall q | 0 <= q < |a|
      ensures a[q] == b[q]
    {
      forall r | 0 <= r < 8
        ensures BitsOfByte(a[q])[r] == BitsOfByte(b[q])[r]
      {
        BitsAt(a, q, r);
        BitsAt(b, q, r);
      }
      BitsOfByteInjective(a[q], b[q]);
    }
  }

  /** Byte strings of one length that differ within 32 consecutive bits have different checksums. */
  lemma BurstDetected(crc: bv32, a: seq<bv8>, b: seq<bv8>, from: nat)
    requires |a| == |b| && a != b
    requires DifferOnlyWithin(Bits(a), Bits(b), from, 32)
    ensures Crc(crc, a) != Crc(crc, b)
  {
    hide Xor, FeedBits, Bits, DifferOnlyWithin;
    if Bits(a) == Bits(b) {
      BitsInjective(a, b);
    }
    var start := Xor(crc, ALL_ONES);
    BurstChangesRegister(start, Bits(a), Bits(b), from);
    if Crc(crc, a) == Crc(crc, b) {
      XorCancel(FeedBits(start, Bits(a)), FeedBits(start, Bits(b)), ALL_ONES);
    }
  }

  /** A change within four consecutive bytes is always detected. */
  lemma FourByteChangeDetected(crc: bv32, a: seq<bv8>, b: seq<bv8>, from: nat)
    requires a != b && DifferOnlyWithin(a, b, from, 4)
    ensures Crc(crc, a) != Crc(crc, b)
  {
    hide Crc, BitsOfByte;
    forall i | 0 <= i < 8 * |a| && !(8 * from <= i < 8 * from + 32)
      ensures Bits(a)[i] == Bits(b)[i]
    {
      BitsAt(a, i / 8, i % 8);
      BitsAt(b, i / 8, i % 8);
    }
    BurstDetected(crc, a, b, 8 * from);
  }

  // ---------------------------------------------------------------- which changes are detected

  /** Where two bit strings differ. */
  function Difference(a: seq<bool>, b: seq<bool>): (d: seq<bool>)
    requires |a| == |b|
    ensures |d| == |a| && forall i :: 0 <= i < |a| ==> d[i] == (a[i] != b[i])
  {
    seq(|a|, i requires 0 <= i < |a| => a[i] != b[i])
  }

  lemma XorShuffle(x: bv32, p: bv32, y: bv32, q: bv32)
    ensures Xor(Xor(x, p), Xor(y, q)) == Xor(Xor(x, y), Xor(p, q))
  {
    XorCommutes(p, y);
    hide Xor;
    XorAssociative(Xor(x, p), y, q);
    XorAssociative(x, p, y);
    XorAssociative(x, y, p);
    XorAssociative(Xor(x, y), p, q);
  }

  lemma XorCommutes(x: bv32, y: bv32)
    ensures Xor(x, y) == Xor(y, x)
  {}

  lemma BitDifference(p: bool, q: bool)
    ensures Xor(BitValue(p), BitValue(q)) == BitValue(p != q)
  {}

  lemma FeedBitDifference(x: bv32, y: bv32, p: bool, q: bool)
    ensures Xor(FeedBit(x, p), FeedBit(y, q)) == FeedBit(Xor(x, y), p != q)
  {
    hide Xor, Shift, BitValue;
    ShiftLinear(Xor(x, BitValue(p)), Xor(y, BitValue(q)));
    XorShuffle(x, BitValue(p), y, BitValue(q));
    BitDifference(p, q);
  }

  /** The difference of two registers develops as a register fed with the difference of the messages. */
  lemma {:induction false} FeedDifference(x: bv32, y: bv32, a: seq<bool>, b: seq<bool>)
    requires |a| == |b|
    ensures Xor(FeedBits(x, a), FeedBits(y, b)) == FeedBits(Xor(x, y), Difference(a, b))
    decreases |a|
  {
    hide Xor, FeedBit;
    if a != [] {
      FeedBitDifference(x, y, a[0], b[0]);
      FeedDifference(FeedBit(x, a[0]), FeedBit(y, b[0]), a[1..], b[1..]);
      assert Difference(a, b)[1..] == Difference(a[1..], b[1..]);
    }
  }

  lemma XorZeroMeansEqual(x: bv32, y: bv32)
    ensures Xor(x, y) == 0 <==> x == y
  {
    XorSelf(y);
    hide Xor;
    if Xor(x, y) == 0 {
      XorCancel(x, y, y);
    }
  }

  lemma XorSelf(x: bv32)
    ensures Xor(x, x) == 0
  {}

  /** What the registers must differ by, and how, for the checksums of a and the no shorter b to be equal: the
      longer one's bits that have no counterpart take the register to another value, and the difference of
      the rest must cancel the difference of those two values. */
  predicate Cancels(crc: bv32, a: seq<bv8>, b: seq<bv8>)
    requires |a| <= |b|
  {
    var start, extra := Xor(crc, ALL_ONES), Bits(b)[..8 * (|b| - |a|)];
    FeedBits(Xor(start, FeedBits(start, extra)), Difference(Bits(a), Bits(b)[|extra|..])) == 0
  }

  lemma EqualOutside(x: bv32, y: bv32)
    ensures Xor(x, ALL_ONES) == Xor(y, ALL_ONES) <==> x == y
  {
    hide Xor;
    if Xor(x, ALL_ONES) == Xor(y, ALL_ONES) {
      XorCancel(x, y, ALL_ONES);
    }
  }

  /** Exactly when two byte strings, of whatever lengths, have equal checksums. */
  lemma DetectedExactlyIf(crc: bv32, a: seq<bv8>, b: seq<bv8>)
    requires |a| <= |b|
    ensures Crc(crc, a) == Crc(crc, b) <==> Cancels(crc, a, b)
  {
    hide Xor, FeedBits, Bits, Difference;
    var start, k := Xor(crc, ALL_ONES), 8 * (|b| - |a|);
    var extra, rest := Bits(b)[..k], Bits(b)[k..];
    var d := FeedBits(start, extra);
    assert Bits(b) == extra + rest;
    FeedBitsConcat(start, extra, rest);
    FeedDifference(start, d, Bits(a), rest);
    var x, y := FeedBits(start, Bits(a)), FeedBits(d, rest);
    XorZeroMeansEqual(x, y);
    EqualOutside(x, y);
  }

  /** Byte strings of one length have equal checksums exactly if their difference takes the zero register
      back to zero; from which start value does not matter. */
  lemma EqualLengthDetectedExactlyIf(crc: bv32, a: seq<bv8>, b: seq<bv8>)
    requires |a| == |b|
    ensures Crc(crc, a) == Crc(crc, b) <==> FeedBits(0, Difference(Bits(a), Bits(b))) == 0
  {
    var start := Xor(crc, ALL_ONES);
    assert Bits(b)[..0] == [] && FeedBits(start, []) == start && Bits(b)[0..] == Bits(b);
    XorZeroMeansEqual(start, start);
    hide Xor, FeedBits, Bits, Difference, Crc;
    DetectedExactlyIf(crc, a, b);
  }
}
