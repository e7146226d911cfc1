/**
 The 16-bit checksum of a frame: a bit-serial shift register with the reflected
 polynomial 0xA001, started from 0xFFFF (section 6.2.2, "CRC Generation", of the
 MODBUS over Serial Line Specification and Implementation Guide V1.02).

 The register is linear over exclusive-or, loses no information when it shifts, and
 keeps parity. Those three facts give the error detection the frame layer relies on.
 */
module Crc16 {
  import opened Bits

  type word = n: nat | n < 0x1_0000

  const CRC_INIT: word := 0xFFFF
  const CRC_POLY: word := 0xA001

  lemma WordLimit()
    ensures Pow2(16) == 0x1_0000 && Pow2(15) == 0x8000
  {
    assert Pow2(4) == 16 && Pow2(8) == 256 && Pow2(12) == 4096;
  }

  /** One shift of the register. */
  function Shift(r: word): word {
    WordLimit();
    XorBelow(r / 2, CRC_POLY, 16);
    if r % 2 == 0 then r / 2 else Xor(r / 2, CRC_POLY)
  }

  /** One byte into the register: fold it into the low half, then shift eight times. */
  function Update(r: word, c: byte): word {
    WordLimit();
    XorBelow(r, c, 16);
    Shift(Shift(Shift(Shift(Shift(Shift(Shift(Shift(Xor(r, c)))))))))
  }

  /** The register after a whole byte string. */
  function Crc(r: word, s: seq<byte>): word
    decreases |s|
  {
    if s == [] then r else Crc(Update(r, s[0]), s[1..])
  }

  // ---------------------------------------------------------------------------
  // The same register fed bit by bit
  // ---------------------------------------------------------------------------

  function Digit(b: bool): nat { if b then 1 else 0 }

  function Feed(r: word, b: bool): word {
    WordLimit();
    XorBelow(r, Digit(b), 16);
    Shift(Xor(r, Digit(b)))
  }

  function FeedAll(r: word, bits: seq<bool>): word
    decreases |bits|
  {
    if bits == [] then r else FeedAll(Feed(r, bits[0]), bits[1..])
  }

  /** n shifts with nothing fed in. */
  function Shifts(r: word, n: nat): word
    decreases n
  {
    if n == 0 then r else Shifts(Shift(r), n - 1)
  }

  /** The low n bits of a number in the order the register sees them, lowest first. */
  function LowBits(w: nat, n: nat): (bits: seq<bool>)
    ensures |bits| == n
    decreases n
  {
    if n == 0 then [] else [w % 2 == 1] + LowBits(w / 2, n - 1)
  }

  /** A bit string as a number, first bit lowest. */
  function Value(bits: seq<bool>): (w: nat)
    ensures w < Pow2(|bits|)
  {
    if bits == [] then 0 else Digit(bits[0]) + 2 * Value(bits[1..])
  }

  function BitString(s: seq<byte>): (bits: seq<bool>)
    ensures |bits| == 8 * |s|
  {
    if s == [] then [] else LowBits(s[0], 8) + BitString(s[1..])
  }

  /** Where two bit strings of one length differ. */
  function Diff(x: seq<bool>, y: seq<bool>): (d: seq<bool>)
    requires |x| == |y|
    ensures |d| == |x|
    ensures forall i :: 0 <= i < |d| ==> d[i] == (x[i] != y[i])
  {
    if x == [] then [] else [x[0] != y[0]] + Diff(x[1..], y[1..])
  }

  /** The number of set bits. */
  function Count(bits: seq<bool>): nat {
    if bits == [] then 0 else Digit(bits[0]) + Count(bits[1..])
  }

  // ---------------------------------------------------------------------------
  // The register is linear and one-to-one
  // ---------------------------------------------------------------------------

  lemma XorWord(a: word, b: word)
    ensures Xor(a, b) < 0x1_0000
  {
    WordLimit();
    XorBelow(a, b, 16);
  }

  lemma ShiftIsLinear(a: word, b: word)
    ensures Xor(a, b) < 0x1_0000 && Shift(Xor(a, b)) == Xor(Shift(a), Shift(b))
  {
    XorWord(a, b);
    var x, y := a / 2, b / 2;
    if a % 2 == 0 {
      XorAssoc(x, y, CRC_POLY);
    } else if b % 2 == 0 {
      XorAssoc(x, CRC_POLY, y);
      XorCommutes(CRC_POLY, y);
      XorAssoc(x, y, CRC_POLY);
    } else {
      XorSwap(x, CRC_POLY, y, CRC_POLY);
      XorIsZero(CRC_POLY, CRC_POLY);
      XorZero(Xor(x, y));
    }
  }

  /** Zero comes only from zero, because the polynomial sets the top bit that a shift has just cleared. */
  lemma ShiftKeepsNonZero(r: word)
    ensures Shift(r) == 0 <==> r == 0
  {
    XorIsZero(r / 2, CRC_POLY);
  }

  lemma FeedIsLinear(a: word, b: word, p: bool, q: bool)
    ensures Xor(a, b) < 0x1_0000 && Xor(Feed(a, p), Feed(b, q)) == Feed(Xor(a, b), p != q)
  {
    XorWord(a, b);
    XorWord(a, Digit(p));
    XorWord(b, Digit(q));
    XorSwap(a, Digit(p), b, Digit(q));
    ShiftIsLinear(Xor(a, Digit(p)), Xor(b, Digit(q)));
    assert Xor(Digit(p), Digit(q)) == Digit(p != q) by {
      XorIsZero(1, 1);
      XorZero(1);
    }
  }

  /** What two strings do to two registers differs exactly by what their difference does to the difference. */
  lemma {:induction false} FeedAllIsLinear(a: word, b: word, x: seq<bool>, y: seq<bool>)
    requires |x| == |y|
    ensures Xor(a, b) < 0x1_0000 && Xor(FeedAll(a, x), FeedAll(b, y)) == FeedAll(Xor(a, b), Diff(x, y))
    decreases |x|
  {
    XorWord(a, b);
    if x == [] {
    } else {
      FeedIsLinear(a, b, x[0], y[0]);
      FeedAllIsLinear(Feed(a, x[0]), Feed(b, y[0]), x[1..], y[1..]);
    }
  }

  /** A number folded in at once waits one place lower after each shift. */
  lemma ShiftPeelsOneBit(r: word, w: word)
    ensures Xor(r, w) < 0x1_0000 && Shift(Xor(r, w)) == Xor(Feed(r, w % 2 == 1), w / 2)
  {
    XorWord(r, w);
    var low := w % 2;
    XorWord(r, low);
    XorAssoc(r, low, w - low);
    assert Xor(low, w - low) == w by { XorZero(w / 2); }
    ShiftIsLinear(Xor(r, low), w - low);
    assert Digit(w % 2 == 1) == low;
  }

  /** Folding a number in at once and shifting is the same as feeding its bits one at a time. */
  lemma {:induction false} NumberFeedsItsBits(r: word, bits: seq<bool>)
    requires |bits| <= 16
    ensures Value(bits) < 0x1_0000 && Xor(r, Value(bits)) < 0x1_0000
    ensures FeedAll(r, bits) == Shifts(Xor(r, Value(bits)), |bits|)
    decreases |bits|
  {
    ValueIsWord(bits);
    XorWord(r, Value(bits));
    if bits == [] {
      XorZero(r);
    } else {
      ShiftPeelsOneBit(r, Value(bits));
      NumberFeedsItsBits(Feed(r, bits[0]), bits[1..]);
    }
  }

  lemma ValueIsWord(bits: seq<bool>)
    requires |bits| <= 16
    ensures Value(bits) < 0x1_0000
  {
    WordLimit();
    Pow2Monotone(|bits|, 16);
  }

  lemma {:induction false} ValueOfLowBits(w: nat, n: nat)
    requires w < Pow2(n)
    ensures Value(LowBits(w, n)) == w
    decreases n
  {
    if n == 0 {
    } else {
      ValueOfLowBits(w / 2, n - 1);
    }
  }

  lemma {:induction false} FeedConcat(r: word, a: seq<bool>, b: seq<bool>)
    ensures FeedAll(r, a + b) == FeedAll(FeedAll(r, a), b)
    decreases |a|
  {
    if a == [] {
      assert a + b == b;
    } else {
      assert (a + b)[1..] == a[1..] + b;
      FeedConcat(Feed(r, a[0]), a[1..], b);
    }
  }

  lemma ByteFeedsItsBits(r: word, c: byte)
    ensures Update(r, c) == FeedAll(r, LowBits(c, 8))
  {
    assert Pow2(8) == 256 by { assert Pow2(4) == 16; }
    ValueOfLowBits(c, 8);
    NumberFeedsItsBits(r, LowBits(c, 8));
    EightShifts(Xor(r, c));
  }

  lemma EightShifts(x: word)
    ensures Shifts(x, 8) == Shift(Shift(Shift(Shift(Shift(Shift(Shift(Shift(x))))))))
  {
    assert Shifts(x, 8) == Shifts(Shift(Shift(x)), 6);
    assert Shifts(Shift(Shift(x)), 6) == Shifts(Shift(Shift(Shift(Shift(x)))), 4);
  }

  /** The byte-wise computation is the bit-serial register fed each byte's low bit first. */
  lemma {:induction false} CrcIsBitSerial(r: word, s: seq<byte>)
    ensures Crc(r, s) == FeedAll(r, BitString(s))
    decreases |s|
  {
    if s == [] {
    } else {
      ByteFeedsItsBits(r, s[0]);
      FeedConcat(r, LowBits(s[0], 8), BitString(s[1..]));
      CrcIsBitSerial(Update(r, s[0]), s[1..]);
    }
  }

  /** Two strings of one length have the same checksum exactly when their difference leaves a zero register at zero. */
  lemma SameCrc(x: seq<byte>, y: seq<byte>)
    requires |x| == |y|
    ensures Crc(CRC_INIT, x) == Crc(CRC_INIT, y) <==> FeedAll(0, Diff(BitString(x), BitString(y))) == 0
  {
    CrcIsBitSerial(CRC_INIT, x);
    CrcIsBitSerial(CRC_INIT, y);
    FeedAllIsLinear(CRC_INIT, CRC_INIT, BitString(x), BitString(y));
    XorIsZero(CRC_INIT, CRC_INIT);
    XorIsZero(Crc(CRC_INIT, x), Crc(CRC_INIT, y));
  }

  /** Starting from all ones is the same as starting from zero on the string with its first sixteen bits turned over,
      so that leading zeros count. */
  lemma StartsFromOnes(s: seq<byte>)
    requires |s| >= 2
    ensures Crc(CRC_INIT, s) == FeedAll(0, FirstTurned(BitString(s), 16))
  {
    CrcIsBitSerial(CRC_INIT, s);
    TurnedInstead(BitString(s), FirstTurned(BitString(s), 16));
  }

  lemma TurnedInstead(bits: seq<bool>, turned: seq<bool>)
    requires |bits| >= 16 && turned == FirstTurned(bits, 16)
    ensures FeedAll(0xFFFF, bits) == FeedAll(0, turned)
  {
    FeedAllIsLinear(0xFFFF, 0, bits, turned);
    XorZero(0xFFFF);
    OnesThenZeros(Diff(bits, turned));
    XorIsZero(FeedAll(0xFFFF, bits), FeedAll(0, turned));
  }

  lemma OnesThenZeros(d: seq<bool>)
    requires |d| >= 16 && forall i :: 0 <= i < |d| ==> (d[i] <==> i < 16)
    ensures FeedAll(0xFFFF, d) == 0
  {
    assert d == d[..16] + d[16..];
    FeedConcat(0xFFFF, d[..16], d[16..]);
    OnesClear(d[..16]);
    QuietInput(0, d[16..]);
  }

  function FirstTurned(bits: seq<bool>, n: nat): (r: seq<bool>)
    ensures |r| == |bits|
  {
    seq(|bits|, i requires 0 <= i < |bits| => if i < n then !bits[i] else bits[i])
  }

  /** Sixteen ones clear a register of ones. */
  lemma OnesClear(ones: seq<bool>)
    requires |ones| == 16 && forall i :: 0 <= i < 16 ==> ones[i]
    ensures FeedAll(0xFFFF, ones) == 0
  {
    OnesValue(ones);
    WordLimit();
    NumberFeedsItsBits(0xFFFF, ones);
    XorIsZero(0xFFFF, 0xFFFF);
    ShiftsOfZero(16);
  }

  lemma {:induction false} OnesValue(ones: seq<bool>)
    requires forall i :: 0 <= i < |ones| ==> ones[i]
    ensures Value(ones) == Pow2(|ones|) - 1
  {
    if ones == [] {
    } else {
      OnesValue(ones[1..]);
    }
  }

  lemma {:induction false} ShiftsOfZero(n: nat)
    ensures Shifts(0, n) == 0
  {
    if n == 0 {
    } else {
      ShiftKeepsNonZero(0);
      ShiftsOfZero(n - 1);
    }
  }

  /** For a fixed string of any length the checksum is one-to-one in the starting register. */
  lemma {:induction false} CrcIsInjective(a: word, b: word, s: seq<byte>)
    ensures Crc(a, s) == Crc(b, s) <==> a == b
  {
    CrcIsBitSerial(a, s);
    CrcIsBitSerial(b, s);
    var bits := BitString(s);
    FeedAllIsLinear(a, b, bits, bits);
    QuietInput(Xor(a, b), Diff(bits, bits));
    XorIsZero(a, b);
    XorIsZero(Crc(a, s), Crc(b, s));
  }

  /** A run of zero bits takes zero to zero and nothing else to zero. */
  lemma {:induction false} QuietInput(r: word, bits: seq<bool>)
    requires forall i :: 0 <= i < |bits| ==> !bits[i]
    ensures FeedAll(r, bits) == 0 <==> r == 0
    decreases |bits|
  {
    if bits == [] {
    } else {
      XorZero(r);
      ShiftKeepsNonZero(r);
      QuietInput(Feed(r, bits[0]), bits[1..]);
    }
  }
}
