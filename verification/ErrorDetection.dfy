/**
 Which corruptions the checksum is certain to notice. Two byte strings of one length are
 compared bit by bit, in the order the register consumes them.
 */
module ErrorDetection {
  import opened Bits
  import opened Crc16

  /** Every bit in which the two strings differ lies in the `width` bits from bit k on. */
  predicate DifferWithin(x: seq<byte>, y: seq<byte>, k: nat, width: nat)
    requires |x| == |y|
  {
    forall i :: 0 <= i < 8 * |x| && BitString(x)[i] != BitString(y)[i] ==> k <= i < k + width
  }

  function Distance(x: seq<byte>, y: seq<byte>): nat
    requires |x| == |y|
  {
    Count(Diff(BitString(x), BitString(y)))
  }

  // ---------------------------------------------------------------------------
  // Bursts
  // ---------------------------------------------------------------------------

  /** A difference confined to sixteen consecutive bits always changes the checksum, whatever the length. */
  lemma BurstDetected(x: seq<byte>, y: seq<byte>, k: nat)
    requires |x| == |y| && x != y
    requires DifferWithin(x, y, k, 16)
    ensures Crc(CRC_INIT, x) != Crc(CRC_INIT, y)
  {
    BitStringIsInjective(x, y);
    SameCrc(x, y);
    BurstFromZero(Diff(BitString(x), BitString(y)), k);
  }

  /** A zero register ignores the quiet bits before a burst, and cannot be brought back to zero by those after it. */
  lemma BurstFromZero(d: seq<bool>, k: nat)
    requires true in d
    requires forall i :: 0 <= i < |d| && d[i] ==> k <= i < k + 16
    ensures FeedAll(0, d) != 0
  {
    var i :| 0 <= i < |d| && d[i];
    var before, rest := d[..k], d[k..];
    assert d == before + rest;
    FeedConcat(0, before, rest);
    QuietInput(0, before);
    assert rest[i - k];
    BurstThenQuiet(rest);
  }

  lemma BurstThenQuiet(d: seq<bool>)
    requires true in d
    requires forall i :: 16 <= i < |d| ==> !d[i]
    ensures FeedAll(0, d) != 0
  {
    var i :| 0 <= i < |d| && d[i];
    var to := if |d| < 16 then |d| else 16;
    var burst, after := d[..to], d[to..];
    assert burst[i];
    assert d == burst + after;
    FeedConcat(0, burst, after);
    ShortInputFromZero(burst);
    QuietInput(FeedAll(0, burst), after);
  }

  /** Up to sixteen bits fed into a zero register leave it at zero only if they are all zero. */
  lemma {:induction false} ShortInputFromZero(bits: seq<bool>)
    requires |bits| <= 16
    requires true in bits
    ensures FeedAll(0, bits) != 0
  {
    NumberFeedsItsBits(0, bits);
    XorZero(Value(bits));
    ValueNonZero(bits);
    ShiftsKeepNonZero(Value(bits), |bits|);
  }

  lemma {:induction false} ValueNonZero(bits: seq<bool>)
    requires true in bits
    ensures Value(bits) != 0
  {
    if bits[0] {
    } else {
      ValueNonZero(bits[1..]);
    }
  }

  lemma {:induction false} ShiftsKeepNonZero(r: word, n: nat)
    requires r != 0
    ensures Shifts(r, n) != 0
    decreases n
  {
    if n == 0 {
    } else {
      ShiftKeepsNonZero(r);
      ShiftsKeepNonZero(Shift(r), n - 1);
    }
  }

  lemma {:induction false} BitStringIsInjective(x: seq<byte>, y: seq<byte>)
    requires |x| == |y| && x != y
    ensures BitString(x) != BitString(y)
  {
    assert Pow2(8) == 256 by { assert Pow2(4) == 16; }
    ValueOfLowBits(x[0], 8);
    ValueOfLowBits(y[0], 8);
    assert BitString(x)[..8] == LowBits(x[0], 8) && BitString(y)[..8] == LowBits(y[0], 8);
    assert BitString(x)[8..] == BitString(x[1..]) && BitString(y)[8..] == BitString(y[1..]);
    if x[0] == y[0] {
      assert x == [x[0]] + x[1..] && y == [y[0]] + y[1..];
      BitStringIsInjective(x[1..], y[1..]);
    }
  }

  /** The polynomial as a difference of seventeen bits, in the order the register sees them. */
  function PolynomialBits(): (p: seq<bool>)
    ensures |p| == 17 && p[0] && p[16]
  {
    [true, true] + LowBits(0, 12) + [true, false] + [true]
  }

  lemma PolynomialBitsAre()
    ensures forall i :: 0 <= i < 17 ==> (PolynomialBits()[i] <==> i == 0 || i == 1 || i == 14 || i == 16)
  {
    NoBits(12);
  }

  /** This difference leaves a zero register at zero. */
  lemma PolynomialHides()
    ensures FeedAll(0, PolynomialBits()) == 0
  {
    PolynomialSteps();
    FeedTwo(0, true, true);
    NoBitsHalve(Pow2(12) * 5, 5, 12);
    FeedTwo(5, true, false);
    FeedTwo(1, true, false);
    Joined([true, true], LowBits(0, 12), [true, false], [true], 0, Pow2(12) * 5, 5, 1, 0);
  }

  lemma {:induction false} NoBits(n: nat)
    ensures forall i :: 0 <= i < n ==> !LowBits(0, n)[i]
    decreases n
  {
    if n == 0 {
    } else {
      NoBits(n - 1);
      assert LowBits(0, n) == [false] + LowBits(0, n - 1);
    }
  }

  /** Of seventeen bits with the last one set nothing else does. */
  lemma OnlyOneHides(p: seq<bool>, q: seq<bool>)
    requires |p| == |q| == 17 && p[16] && q[16] && FeedAll(0, q) == 0
    ensures FeedAll(0, p) == 0 <==> p == q
  {
    LastOfSeventeen(p);
    LastOfSeventeen(q);
    SixteenBitsTell(p[..16], q[..16]);
    assert p == p[..16] + [true] && q == q[..16] + [true];
  }

  /** A last set bit brings the register to zero exactly from one. */
  lemma LastOfSeventeen(p: seq<bool>)
    requires |p| == 17 && p[16]
    ensures FeedAll(0, p) == 0 <==> FeedAll(0, p[..16]) == 1
  {
    var r := FeedAll(0, p[..16]);
    FeedConcat(0, p[..16], [true]);
    assert p == p[..16] + [true];
    FeedTwo(r, true, true);
    XorWord(r, 1);
    ShiftKeepsNonZero(Xor(r, 1));
    XorIsZero(r, 1);
  }

  /** Sixteen bits fed into a zero register can be told from the register. */
  lemma SixteenBitsTell(a: seq<bool>, b: seq<bool>)
    requires |a| == |b| <= 16
    ensures FeedAll(0, a) == FeedAll(0, b) <==> a == b
  {
    var d := Diff(a, b);
    FeedAllIsLinear(0, 0, a, b);
    XorIsZero(0, 0);
    XorIsZero(FeedAll(0, a), FeedAll(0, b));
    if a != b {
      var i :| 0 <= i < |a| && a[i] != b[i];
      assert d[i];
      ShortInputFromZero(d);
    }
  }

  /** One bit more than sixteen is where the promise ends, and by exactly one pattern: strings of any length that
      differ only within seventeen consecutive bits have the same checksum if and only if their difference is the
      polynomial. */
  lemma SeventeenBitsCanHide(x: seq<byte>, y: seq<byte>, k: nat)
    requires |x| == |y| && x != y
    requires DifferWithin(x, y, k, 17)
    ensures Crc(CRC_INIT, x) == Crc(CRC_INIT, y)
      <==> k + 17 <= 8 * |x| && Diff(BitString(x), BitString(y))[k..k + 17] == PolynomialBits()
  {
    var d := Diff(BitString(x), BitString(y));
    if k + 17 <= |d| && d[k + 16] {
      SameCrc(x, y);
      WideBurst(d, k);
    } else {
      NarrowBurst(x, y, k);
      assert k + 17 <= |d| ==> d[k..k + 17][16] == d[k + 16];
    }
  }

  lemma NarrowBurst(x: seq<byte>, y: seq<byte>, k: nat)
    requires |x| == |y| && x != y && DifferWithin(x, y, k, 17)
    requires k + 17 <= 8 * |x| ==> !Diff(BitString(x), BitString(y))[k + 16]
    ensures Crc(CRC_INIT, x) != Crc(CRC_INIT, y)
  {
    BurstDetected(x, y, k);
  }

  lemma WideBurst(d: seq<bool>, k: nat)
    requires k + 17 <= |d| && d[k + 16] && forall i :: 0 <= i < |d| && d[i] ==> k <= i < k + 17
    ensures FeedAll(0, d) == 0 <==> d[k..k + 17] == PolynomialBits()
  {
    QuietAround(d, k);
    PolynomialHides();
    OnlyOneHides(d[k..k + 17], PolynomialBits());
  }

  lemma QuietAround(d: seq<bool>, k: nat)
    requires k + 17 <= |d| && forall i :: 0 <= i < |d| && d[i] ==> k <= i < k + 17
    ensures FeedAll(0, d) == 0 <==> FeedAll(0, d[k..k + 17]) == 0
  {
    var before, p, after := d[..k], d[k..k + 17], d[k + 17..];
    assert d == before + (p + after);
    FeedConcat(0, before, p + after);
    FeedConcat(0, p, after);
    QuietInput(0, before);
    QuietInput(FeedAll(0, p), after);
  }

  lemma Joined(a: seq<bool>, b: seq<bool>, c: seq<bool>, d: seq<bool>,
               r0: word, r1: word, r2: word, r3: word, r4: word)
    requires FeedAll(r0, a) == r1 && FeedAll(r1, b) == r2 && FeedAll(r2, c) == r3 && FeedAll(r3, d) == r4
    ensures FeedAll(r0, a + b + c + d) == r4
  {
    FeedConcat(r0, a, b);
    FeedConcat(r0, a + b, c);
    FeedConcat(r0, a + b + c, d);
  }

  lemma FeedTwo(r: word, p: bool, q: bool)
    ensures FeedAll(r, [p]) == Feed(r, p)
    ensures FeedAll(r, [p, q]) == Feed(Feed(r, p), q)
  {
    FeedConcat(r, [p], [q]);
    assert [p] + [q] == [p, q];
    assert FeedAll(Feed(r, p), [q]) == FeedAll(Feed(Feed(r, p), q), []);
    assert FeedAll(r, [p]) == FeedAll(Feed(r, p), []);
  }

  lemma PolynomialSteps()
    ensures Feed(0, true) == 0xA001 && Feed(0xA001, true) == Pow2(12) * 5
    ensures Feed(5, true) == 2 && Feed(2, false) == 1 && Feed(1, true) == 0
  {
    XorZero(1);
    XorZero(CRC_POLY);
    FeedOne(0xA001);
    FeedOne(5);
    FeedOne(1);
    FeedNone(1);
    Pow2OfTwelve();
  }

  lemma Pow2OfTwelve()
    ensures Pow2(12) == 4096
  {
    assert Pow2(4) == 16;
    assert Pow2(8) == 256;
  }

  /** A one fed to an odd register only halves it, as does a zero fed to an even one. */
  lemma FeedOne(r: word)
    requires r % 2 == 1
    ensures Feed(r, true) == r / 2
  {
    XorZero(r / 2);
    assert Xor(r, 1) == 2 * (r / 2);
  }

  lemma FeedNone(half: word)
    requires 2 * half < 0x1_0000
    ensures Feed(2 * half, false) == half
  {
    XorZero(2 * half);
  }

  lemma {:induction false} NoBitsHalve(x: word, r: word, n: nat)
    requires x == Pow2(n) * r
    ensures FeedAll(x, LowBits(0, n)) == r
    decreases n
  {
    if n == 0 {
    } else {
      var half := HalfOf(x, r, n);
      FeedNone(half);
      NoBitsHalve(half, r, n - 1);
      assert LowBits(0, n) == [false] + LowBits(0, n - 1);
    }
  }

  lemma HalfOf(x: word, r: word, n: nat) returns (half: word)
    requires n > 0 && x == Pow2(n) * r
    ensures x == 2 * half && half == Pow2(n - 1) * r
  {
    half := Pow2(n - 1) * r;
  }

  // ---------------------------------------------------------------------------
  // Parity
  // ---------------------------------------------------------------------------

  /** Whether a number has an odd count of set bits. */
  function Odd(r: nat): bool {
    if r == 0 then false else (r % 2 == 1) != Odd(r / 2)
  }

  lemma {:induction false} OddOfXor(a: nat, b: nat)
    ensures Odd(Xor(a, b)) == (Odd(a) != Odd(b))
  {
    if a == 0 && b == 0 {
    } else {
      OddOfXor(a / 2, b / 2);
    }
  }

  /** A shift keeps parity: a set bit that leaves is made up for by the three bits of the polynomial. */
  lemma ShiftKeepsParity(r: word)
    ensures Odd(Shift(r)) == Odd(r)
  {
    OddOfXor(r / 2, CRC_POLY);
    OddConstants();
  }

  lemma OddConstants()
    ensures Odd(CRC_POLY) && !Odd(CRC_INIT)
  {
    Pow2OfTwelve();
    OddPolynomial(CRC_POLY);
    assert Pow2(16) == 0x1_0000;
    OddOfOnes(16);
  }

  lemma OddPolynomial(p: nat)
    requires p == 2 * (Pow2(12) * 5) + 1
    ensures Odd(p)
  {
    OddShifted(5, 12);
    assert p / 2 == Pow2(12) * 5;
    assert !Odd(5) by { assert Odd(1) && Odd(2); }
  }

  lemma {:induction false} OddShifted(a: nat, n: nat)
    ensures Odd(Pow2(n) * a) == Odd(a)
    decreases n
  {
    if n == 0 {
    } else {
      var half := Pow2(n - 1) * a;
      assert Pow2(n) * a == 2 * half;
      OddShifted(a, n - 1);
      assert 2 * half / 2 == half;
    }
  }

  lemma {:induction false} OddOfOnes(n: nat)
    ensures Odd(Pow2(n) - 1) <==> n % 2 == 1
    decreases n
  {
    if n == 0 {
    } else {
      OddOfOnes(n - 1);
      assert (Pow2(n) - 1) / 2 == Pow2(n - 1) - 1;
    }
  }

  lemma {:induction false} FeedAllParity(r: word, bits: seq<bool>)
    ensures Odd(FeedAll(r, bits)) == (Odd(r) != (Count(bits) % 2 == 1))
    decreases |bits|
  {
    if bits == [] {
    } else {
      var next, rest := Feed(r, bits[0]), bits[1..];
      FeedParity(r, bits[0]);
      FeedAllParity(next, rest);
      assert FeedAll(r, bits) == FeedAll(next, rest);
      assert Count(bits) == Count(rest) + if bits[0] then 1 else 0;
    }
  }

  lemma FeedParity(r: word, b: bool)
    ensures Odd(Feed(r, b)) == (Odd(r) != b)
  {
    XorWord(r, Digit(b));
    OddOfXor(r, Digit(b));
    ShiftKeepsParity(Xor(r, Digit(b)));
  }

  /** The checksum of any byte string has the same bit parity as the string. */
  lemma CrcParity(s: seq<byte>)
    ensures Odd(Crc(CRC_INIT, s)) <==> Count(BitString(s)) % 2 == 1
  {
    CrcIsBitSerial(CRC_INIT, s);
    FeedAllParity(CRC_INIT, BitString(s));
    OddConstants();
  }

  /** An odd number of flipped bits always changes the checksum. */
  lemma OddFlipsDetected(x: seq<byte>, y: seq<byte>)
    requires |x| == |y| && Distance(x, y) % 2 == 1
    ensures Crc(CRC_INIT, x) != Crc(CRC_INIT, y)
  {
    SameCrc(x, y);
    FeedAllParity(0, Diff(BitString(x), BitString(y)));
  }
}
