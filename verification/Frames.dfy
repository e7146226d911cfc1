/**
 The 14-byte message frame: `[`, four bytes as eight hex characters, the checksum of those
 eight characters as four hex characters, `]`. The device and the host carry the same codec.
 */
module Frames {
  import opened Bits
  import opened Crc16
  import opened ErrorDetection
  import opened Rings

  const FRAME_LENGTH := 14
  const BEGIN: byte := 0x5B  // '['
  const END: byte := 0x5D    // ']'

  /** What a frame carries: a message type and three parameters. */
  datatype Msg = Msg(kind: byte, p1: byte, p2: byte, p3: byte)

  datatype Status = Ok | Incomplete | BadFrame | BadCrc

  function Dec2Hex(d: byte): byte {
    if d <= 9 then d + 0x30 else if d <= 15 then d - 10 + 0x61 else 0x7A
  }

  /** Lenient: either case is a digit, and anything that is no hex digit reads as zero. */
  function Hex2Dec(h: byte): (d: byte)
    ensures d < 16
  {
    if 0x30 <= h <= 0x39 then h - 0x30
    else if 0x41 <= h <= 0x46 then h - 0x41 + 10
    else if 0x61 <= h <= 0x66 then h - 0x61 + 10
    else 0
  }

  function HexPair(v: byte): (s: seq<byte>)
    ensures |s| == 2
  {
    [Dec2Hex(v / 16 % 16), Dec2Hex(v % 16)]
  }

  function FromHexPair(hi: byte, lo: byte): byte {
    16 * Hex2Dec(hi) + Hex2Dec(lo)
  }

  function Payload(m: Msg): (s: seq<byte>)
    ensures |s| == 8
  {
    HexPair(m.kind) + HexPair(m.p1) + HexPair(m.p2) + HexPair(m.p3)
  }

  function CrcChars(crc: word): (s: seq<byte>)
    ensures |s| == 4
  {
    [Dec2Hex(crc / 4096 % 16), Dec2Hex(crc / 256 % 16), Dec2Hex(crc / 16 % 16), Dec2Hex(crc % 16)]
  }

  function Frame(m: Msg): (w: seq<byte>)
    ensures |w| == FRAME_LENGTH
  {
    [BEGIN] + Payload(m) + CrcChars(Crc(CRC_INIT, Payload(m))) + [END]
  }

  function StoredCrc(w: seq<byte>): word
    requires |w| >= FRAME_LENGTH
  {
    4096 * Hex2Dec(w[9]) + 256 * Hex2Dec(w[10]) + 16 * Hex2Dec(w[11]) + Hex2Dec(w[12])
  }

  function Check(w: seq<byte>): Status {
    if |w| < FRAME_LENGTH then Incomplete
    else if w[0] != BEGIN || w[13] != END then BadFrame
    else if StoredCrc(w) != Crc(CRC_INIT, w[1..9]) then BadCrc
    else Ok
  }

  function Values(w: seq<byte>): Msg
    requires |w| >= FRAME_LENGTH
  {
    Msg(FromHexPair(w[1], w[2]), FromHexPair(w[3], w[4]), FromHexPair(w[5], w[6]), FromHexPair(w[7], w[8]))
  }

  // ---------------------------------------------------------------------------
  // What a frame promises
  // ---------------------------------------------------------------------------

  predicate HexChar(c: byte) {
    0x30 <= c <= 0x39 || 0x61 <= c <= 0x66
  }

  /** The twelve inner characters are digits as the sender writes them. */
  predicate Canonical(w: seq<byte>)
    requires |w| == FRAME_LENGTH
  {
    forall i :: 1 <= i < 13 ==> HexChar(w[i])
  }

  lemma DigitRoundTrip(d: byte)
    requires d < 16
    ensures Hex2Dec(Dec2Hex(d)) == d && HexChar(Dec2Hex(d))
  {}

  lemma CharRoundTrip(c: byte)
    requires HexChar(c)
    ensures Dec2Hex(Hex2Dec(c)) == c
  {}

  lemma HexDigits(v: byte)
    ensures FromHexPair(HexPair(v)[0], HexPair(v)[1]) == v
    ensures HexChar(HexPair(v)[0]) && HexChar(HexPair(v)[1])
  {
    DigitRoundTrip(v / 16 % 16);
    DigitRoundTrip(v % 16);
  }

  lemma FourDigits(x: nat, a: nat, b: nat, c: nat, d: nat)
    requires a < 16 && b < 16 && c < 16 && d < 16
    ensures x == 4096 * a + 256 * b + 16 * c + d
      <==> x < 0x1_0000 && a == x / 4096 % 16 && b == x / 256 % 16 && c == x / 16 % 16 && d == x % 16
  {
    var y := x / 16;
    var z := y / 16;
    assert x / 256 == z && x / 4096 == z / 16;
    if x == 4096 * a + 256 * b + 16 * c + d {
      assert y == 256 * a + 16 * b + c;
      assert z == 16 * a + b;
    }
  }

  lemma CrcDigits(crc: word)
    ensures var s := CrcChars(crc);
      && 4096 * Hex2Dec(s[0]) + 256 * Hex2Dec(s[1]) + 16 * Hex2Dec(s[2]) + Hex2Dec(s[3]) == crc
      && HexChar(s[0]) && HexChar(s[1]) && HexChar(s[2]) && HexChar(s[3])
  {
    var a, b, c, d := crc / 4096 % 16, crc / 256 % 16, crc / 16 % 16, crc % 16;
    DigitRoundTrip(a);
    DigitRoundTrip(b);
    DigitRoundTrip(c);
    DigitRoundTrip(d);
    FourDigits(crc, a, b, c, d);
  }

  /** A built frame is accepted, gives back its message, and has its opening bracket nowhere but in front. */
  lemma FrameRoundTrip(m: Msg)
    ensures Check(Frame(m)) == Ok && Values(Frame(m)) == m
    ensures Canonical(Frame(m))
    ensures Frame(m)[0] == BEGIN && forall i :: 1 <= i < FRAME_LENGTH ==> Frame(m)[i] != BEGIN
  {
    HexDigits(m.kind);
    HexDigits(m.p1);
    HexDigits(m.p2);
    HexDigits(m.p3);
    var w, crc := Frame(m), Crc(CRC_INIT, Payload(m));
    CrcDigits(crc);
    assert w[1..9] == Payload(m);
    assert w[9..13] == CrcChars(crc);
    assert w[9] == CrcChars(crc)[0] && w[10] == CrcChars(crc)[1];
    assert w[11] == CrcChars(crc)[2] && w[12] == CrcChars(crc)[3];
    assert w[13] == END;
  }

  /** Conversely, the accepted windows written in the sender's digits are exactly the built frames. */
  lemma AcceptedIsBuilt(w: seq<byte>)
    requires |w| == FRAME_LENGTH
    ensures Check(w) == Ok && Canonical(w) <==> w == Frame(Values(w))
  {
    FrameRoundTrip(Values(w));
    if Check(w) == Ok && Canonical(w) { RebuildFrame(w); }
  }

  lemma RebuildFrame(w: seq<byte>)
    requires |w| == FRAME_LENGTH && Check(w) == Ok && Canonical(w)
    ensures w == Frame(Values(w))
  {
    RebuildPayload(w);
    RebuildCrc(w);
    assert w == [w[0]] + w[1..9] + w[9..13] + [w[13]];
  }

  lemma RebuildCrc(w: seq<byte>)
    requires |w| == FRAME_LENGTH && Canonical(w)
    ensures w[9..13] == CrcChars(StoredCrc(w))
  {
    CrcOfDigits(w[9], w[10], w[11], w[12]);
    assert w[9..13] == [w[9], w[10], w[11], w[12]];
  }

  lemma RebuildPayload(w: seq<byte>)
    requires |w| == FRAME_LENGTH && Canonical(w)
    ensures w[1..9] == Payload(Values(w))
  {
    PairOfDigits(w[1], w[2]);
    PairOfDigits(w[3], w[4]);
    PairOfDigits(w[5], w[6]);
    PairOfDigits(w[7], w[8]);
  }

  lemma PairOfDigits(hi: byte, lo: byte)
    requires HexChar(hi) && HexChar(lo)
    ensures HexPair(FromHexPair(hi, lo)) == [hi, lo]
  {
    CharRoundTrip(hi);
    CharRoundTrip(lo);
    PairSplits(Hex2Dec(hi), Hex2Dec(lo));
  }

  lemma PairSplits(a: nat, b: nat)
    requires a < 16 && b < 16
    ensures (16 * a + b) / 16 % 16 == a && (16 * a + b) % 16 == b
  {}

  lemma CrcOfDigits(a: byte, b: byte, c: byte, d: byte)
    requires HexChar(a) && HexChar(b) && HexChar(c) && HexChar(d)
    ensures CrcChars(4096 * Hex2Dec(a) + 256 * Hex2Dec(b) + 16 * Hex2Dec(c) + Hex2Dec(d)) == [a, b, c, d]
  {
    CharRoundTrip(a);
    CharRoundTrip(b);
    CharRoundTrip(c);
    CharRoundTrip(d);
    FourDigits(4096 * Hex2Dec(a) + 256 * Hex2Dec(b) + 16 * Hex2Dec(c) + Hex2Dec(d),
               Hex2Dec(a), Hex2Dec(b), Hex2Dec(c), Hex2Dec(d));
  }

  // ---------------------------------------------------------------------------
  // Corruption
  // ---------------------------------------------------------------------------

  /** Two windows that agree outside the eight payload characters. */
  predicate SameButPayload(w: seq<byte>, v: seq<byte>) {
    |w| == |v| == FRAME_LENGTH && w[0] == v[0] && w[9..] == v[9..]
  }

  /** An accepted window is never accepted again after a corruption of its payload characters that is confined
      to sixteen consecutive bits, or that flips an odd number of bits. */
  lemma PayloadCorruptionRejected(w: seq<byte>, v: seq<byte>, k: nat)
    requires Check(w) == Ok && SameButPayload(w, v)
    requires w[1..9] != v[1..9]
    requires DifferWithin(w[1..9], v[1..9], k, 16) || Distance(w[1..9], v[1..9]) % 2 == 1
    ensures Check(v) == BadCrc
  {
    if DifferWithin(w[1..9], v[1..9], k, 16) {
      BurstDetected(w[1..9], v[1..9], k);
    } else {
      OddFlipsDetected(w[1..9], v[1..9]);
    }
    SameStoredCrc(w, v);
  }

  lemma SameStoredCrc(w: seq<byte>, v: seq<byte>)
    requires SameButPayload(w, v)
    ensures StoredCrc(w) == StoredCrc(v) && w[13] == v[13]
  {
    assert forall i :: 9 <= i < 14 ==> w[i] == w[9..][i - 9] && v[i] == v[9..][i - 9];
  }

  /** A corruption of the payload characters within seventeen consecutive bits goes unnoticed exactly if it flips the
      bits of the polynomial. */
  lemma PayloadBurstOfSeventeen(w: seq<byte>, v: seq<byte>, k: nat)
    requires Check(w) == Ok && SameButPayload(w, v)
    requires w[1..9] != v[1..9] && DifferWithin(w[1..9], v[1..9], k, 17)
    ensures (Check(v) == Ok
      <==> k + 17 <= 64 && Diff(BitString(w[1..9]), BitString(v[1..9]))[k..k + 17] == PolynomialBits())
  {
    SeventeenBitsCanHide(w[1..9], v[1..9], k);
    SameStoredCrc(w, v);
  }

  /** Eight payload characters, and the same with the bits of the polynomial flipped. */
  const ZERO_PAYLOAD: seq<byte> := [0x30, 0x30, 0x30, 0x30, 0x30, 0x30, 0x30, 0x30]   // "00000000"
  const OTHER_PAYLOAD: seq<byte> := [0x33, 0x70, 0x31, 0x30, 0x30, 0x30, 0x30, 0x30]  // "3p100000"

  /** Such a corruption turns the frame of four zeros into a window that is accepted and reads otherwise. */
  lemma HiddenCorruption(w: seq<byte>, v: seq<byte>)
    requires w == Frame(Msg(0, 0, 0, 0)) && v == [BEGIN] + OTHER_PAYLOAD + w[9..]
    ensures Check(w) == Ok && Check(v) == Ok
    ensures Values(w) == Msg(0, 0, 0, 0) && Values(v) == Msg(0x30, 0x10, 0, 0)
  {
    FrameRoundTrip(Msg(0, 0, 0, 0));
    PayloadOf(w, Msg(0, 0, 0, 0));
    ZeroPayload();
    PayloadReplaced(w, v, OTHER_PAYLOAD);
    OtherValues(v, v[1..9]);
    FlippedPolynomial(w[1..9], v[1..9]);
    PayloadBurstOfSeventeen(w, v, 0);
  }

  lemma ZeroPayload()
    ensures Payload(Msg(0, 0, 0, 0)) == ZERO_PAYLOAD
  {
    assert HexPair(0) == [0x30, 0x30];
  }

  lemma PayloadOf(w: seq<byte>, m: Msg)
    requires w == Frame(m)
    ensures w[0] == BEGIN && w[1..9] == Payload(m)
  {
    Middle(w, Payload(m), CrcChars(Crc(CRC_INIT, Payload(m))));
  }

  lemma PayloadReplaced(w: seq<byte>, v: seq<byte>, p: seq<byte>)
    requires |w| == FRAME_LENGTH && |p| == 8 && w[0] == BEGIN && v == [BEGIN] + p + w[9..]
    ensures v[1..9] == p && SameButPayload(w, v)
  {}

  lemma Middle(w: seq<byte>, p: seq<byte>, q: seq<byte>)
    requires |p| == 8 && |q| == 4 && w == [BEGIN] + p + q + [END]
    ensures w[1..9] == p
  {}

  lemma OtherValues(v: seq<byte>, p: seq<byte>)
    requires |v| >= FRAME_LENGTH && p == v[1..9] == OTHER_PAYLOAD
    ensures Values(v) == Msg(0x30, 0x10, 0, 0)
  {
    assert v[1] == p[0] && v[2] == p[1] && v[3] == p[2] && v[4] == p[3];
    assert v[5] == p[4] && v[6] == p[5] && v[7] == p[6] && v[8] == p[7];
  }

  lemma FlippedPolynomial(x: seq<byte>, y: seq<byte>)
    requires x == ZERO_PAYLOAD && y == OTHER_PAYLOAD
    ensures DifferWithin(x, y, 0, 17) && Diff(BitString(x), BitString(y))[0..17] == PolynomialBits()
  {
    var a := [false, false, false, false, true, true, false, false];
    var b := [true, true, false, false, true, true, false, false];
    var c := [false, false, false, false, true, true, true, false];
    var d := [true, false, false, false, true, true, false, false];
    EightBits(x[0], a);
    EightBits(y[0], b);
    EightBits(y[1], c);
    EightBits(y[2], d);
    ThreeBytes(x);
    ThreeBytes(y);
    assert x[3..] == y[3..];
    FourFlips(BitString(x), BitString(y), a, b, c, d, BitString(x[3..]));
  }

  lemma FourFlips(x: seq<bool>, y: seq<bool>, a: seq<bool>, b: seq<bool>, c: seq<bool>, d: seq<bool>, t: seq<bool>)
    requires |a| == |b| == |c| == |d| == 8 && x == a + a + a + t && y == b + c + d + t
    requires forall i :: 0 <= i < 8 ==> (a[i] != b[i] <==> i == 0 || i == 1)
    requires forall i :: 0 <= i < 8 ==> (a[i] != c[i] <==> i == 6)
    requires forall i :: 0 <= i < 8 ==> (a[i] != d[i] <==> i == 0)
    ensures forall i :: 0 <= i < |x| && x[i] != y[i] ==> 0 <= i < 17
    ensures Diff(x, y)[0..17] == PolynomialBits()
  {
    forall i | 0 <= i < |x|
      ensures x[i] != y[i] <==> i == 0 || i == 1 || i == 14 || i == 16
    {
      if i < 8 {
        assert x[i] == a[i] && y[i] == b[i];
      } else if i < 16 {
        assert x[i] == a[i - 8] && y[i] == c[i - 8];
      } else if i < 24 {
        assert x[i] == a[i - 16] && y[i] == d[i - 16];
      } else {
        assert x[i] == t[i - 24] && y[i] == t[i - 24];
      }
    }
    PolynomialBitsAre();
  }

  lemma ThreeBytes(s: seq<byte>)
    requires |s| >= 3
    ensures BitString(s) == LowBits(s[0], 8) + LowBits(s[1], 8) + LowBits(s[2], 8) + BitString(s[3..])
  {
    OneByteMore(s, LowBits(s[0], 8), s[1..]);
    OneByteMore(s[1..], LowBits(s[1], 8), s[2..]);
    OneByteMore(s[2..], LowBits(s[2], 8), s[3..]);
    Joined3(LowBits(s[0], 8), LowBits(s[1], 8), LowBits(s[2], 8), BitString(s[3..]));
  }

  lemma OneByteMore(s: seq<byte>, bits: seq<bool>, rest: seq<byte>)
    requires s != [] && bits == LowBits(s[0], 8) && rest == s[1..]
    ensures BitString(s) == bits + BitString(rest)
  {}

  lemma Joined3(a: seq<bool>, b: seq<bool>, c: seq<bool>, d: seq<bool>)
    ensures a + (b + (c + d)) == a + b + c + d
  {}

  lemma EightBits(c: byte, q: seq<bool>)
    requires |q| == 8
    requires c == Digit(q[0]) + 2 * Digit(q[1]) + 4 * Digit(q[2]) + 8 * Digit(q[3])
      + 16 * Digit(q[4]) + 32 * Digit(q[5]) + 64 * Digit(q[6]) + 128 * Digit(q[7])
    ensures LowBits(c, 8) == q
  {
    ValueOfFour(q);
    ValueOfFour(q[4..]);
    LowBitsOfValue(q);
  }

  lemma ValueOfFour(q: seq<bool>)
    requires |q| >= 4
    ensures Value(q) == Digit(q[0]) + 2 * Digit(q[1]) + 4 * Digit(q[2]) + 8 * Digit(q[3]) + 16 * Value(q[4..])
  {
    assert q[1..][1..] == q[2..] && q[2..][1..] == q[3..] && q[3..][1..] == q[4..];
    assert Value(q) == Digit(q[0]) + 2 * Value(q[1..]) && Value(q[1..]) == Digit(q[1]) + 2 * Value(q[2..]);
    assert Value(q[2..]) == Digit(q[2]) + 2 * Value(q[3..]) && Value(q[3..]) == Digit(q[3]) + 2 * Value(q[4..]);
  }

  lemma {:induction false} LowBitsOfValue(q: seq<bool>)
    ensures LowBits(Value(q), |q|) == q
  {
    if q == [] {
    } else {
      LowBitsOfValue(q[1..]);
      assert Value(q) / 2 == Value(q[1..]) && (Value(q) % 2 == 1 <==> q[0]);
    }
  }

  /** Any one character of an accepted window replaced: the window is refused, unless the character belongs to the
      stored checksum and still reads as the same digit. In no case does it deliver other values. */
  lemma OneCharacterReplaced(w: seq<byte>, i: nat, c: byte)
    requires |w| == FRAME_LENGTH && Check(w) == Ok
    requires i < FRAME_LENGTH && c != w[i]
    ensures Check(w[i := c]) == Ok <==> 9 <= i <= 12 && Hex2Dec(c) == Hex2Dec(w[i])
    ensures Check(w[i := c]) == Ok ==> Values(w[i := c]) == Values(w)
  {
    var v := w[i := c];
    if 1 <= i <= 8 {
      var x, y := w[1..9], v[1..9];
      assert y == x[i - 1 := c];
      OneByteIsABurst(x, i - 1, c);
      assert w[9..] == v[9..];
      PayloadCorruptionRejected(w, v, 8 * (i - 1));
    } else {
      assert v[1..9] == w[1..9];
      if 9 <= i <= 12 { OneDigitReplaced(w, i, c); }
    }
  }

  lemma OneDigitReplaced(w: seq<byte>, i: nat, c: byte)
    requires |w| == FRAME_LENGTH && 9 <= i <= 12
    ensures StoredCrc(w[i := c]) == StoredCrc(w) <==> Hex2Dec(c) == Hex2Dec(w[i])
  {
    var v := w[i := c];
    FourDigits(StoredCrc(w), Hex2Dec(w[9]), Hex2Dec(w[10]), Hex2Dec(w[11]), Hex2Dec(w[12]));
    FourDigits(StoredCrc(v), Hex2Dec(v[9]), Hex2Dec(v[10]), Hex2Dec(v[11]), Hex2Dec(v[12]));
  }

  /** Strings that differ in one byte differ within eight consecutive bits. */
  lemma {:induction false} OneByteIsABurst(x: seq<byte>, i: nat, c: byte)
    requires i < |x|
    ensures DifferWithin(x, x[i := c], 8 * i, 16)
  {
    var y := x[i := c];
    if i == 0 {
      var bx, cx := BitString(x), BitString(y);
      assert x[1..] == y[1..];
      assert bx[8..] == BitString(x[1..]) && cx[8..] == BitString(y[1..]);
      assert forall k :: 8 <= k < |bx| ==> bx[k] == bx[8..][k - 8] && cx[k] == cx[8..][k - 8];
    } else {
      OneByteIsABurst(x[1..], i - 1, c);
      assert y[1..] == x[1..][i - 1 := c];
      DifferOneLater(x, y, 8 * (i - 1), 16);
    }
  }

  lemma DifferOneLater(x: seq<byte>, y: seq<byte>, k: nat, n: nat)
    requires |x| == |y| > 0 && x[0] == y[0] && DifferWithin(x[1..], y[1..], k, n)
    ensures DifferWithin(x, y, k + 8, n)
  {
    var bx, cx := BitString(x), BitString(y);
    assert bx[8..] == BitString(x[1..]) && cx[8..] == BitString(y[1..]);
    assert bx[..8] == cx[..8];
    assert forall l :: 0 <= l < 8 ==> bx[l] == bx[..8][l] && cx[l] == cx[..8][l];
    forall l | 8 <= l < |bx| && bx[l] != cx[l]
      ensures k + 8 <= l < k + 8 + n
    {
      assert bx[l] == bx[8..][l - 8] && cx[l] == cx[8..][l - 8];
    }
  }

  // ---------------------------------------------------------------------------
  // The codec over a ring
  // ---------------------------------------------------------------------------

  method ComputeCrc(rb: RingBuffer) returns (crc: word)
    requires rb.Valid() && |rb.Contents()| >= 9
    ensures crc == Crc(CRC_INIT, rb.Contents()[1..9])
  {
    var c := rb.At(1);
    crc := Update(CRC_INIT, c);
    c := rb.At(2);
    crc := Update(crc, c);
    c := rb.At(3);
    crc := Update(crc, c);
    c := rb.At(4);
    crc := Update(crc, c);
    c := rb.At(5);
    crc := Update(crc, c);
    c := rb.At(6);
    crc := Update(crc, c);
    c := rb.At(7);
    crc := Update(crc, c);
    c := rb.At(8);
    crc := Update(crc, c);
    CrcOfEight(rb.Contents()[1..9]);
  }

  lemma CrcOfEight(s: seq<byte>)
    requires |s| == 8
    ensures Crc(CRC_INIT, s) == Update(Update(Update(Update(Update(Update(Update(Update(
      CRC_INIT, s[0]), s[1]), s[2]), s[3]), s[4]), s[5]), s[6]), s[7])
  {
    CrcOfFour(CRC_INIT, s);
    CrcOfFour(Crc(CRC_INIT, s[..4]), s[4..]);
    assert s[4..][..4] == s[4..];
  }

  lemma CrcOfFour(r: word, s: seq<byte>)
    requires |s| >= 4
    ensures Crc(r, s[..4]) == Update(Update(Update(Update(r, s[0]), s[1]), s[2]), s[3])
    ensures Crc(r, s) == Crc(Crc(r, s[..4]), s[4..])
  {
    var t := s[..4];
    CrcOfTwo(r, t);
    CrcOfTwo(Crc(r, t[..2]), t[2..]);
    CrcOfTwo(r, s);
    CrcOfTwo(Crc(r, s[..2]), s[2..]);
    assert t[..2] == s[..2] && t[2..][..2] == s[2..][..2] && t[2..][2..] == [] && s[2..][2..] == s[4..];
  }

  lemma CrcOfTwo(r: word, s: seq<byte>)
    requires |s| >= 2
    ensures Crc(r, s[..2]) == Update(Update(r, s[0]), s[1])
    ensures Crc(r, s) == Crc(Crc(r, s[..2]), s[2..])
  {
    assert s[..2][1..] == [s[1]] && [s[1]][1..] == [];
    assert Crc(Update(r, s[0]), [s[1]]) == Crc(Update(Update(r, s[0]), s[1]), []);
    assert s[1..][1..] == s[2..];
  }

  method GetCrc(rb: RingBuffer) returns (crc: word)
    requires rb.Valid() && |rb.Contents()| >= FRAME_LENGTH
    ensures crc == StoredCrc(rb.Contents())
  {
    var c0 := rb.At(9);
    var c1 := rb.At(10);
    var c2 := rb.At(11);
    var c3 := rb.At(12);
    crc := 4096 * Hex2Dec(c0) + 256 * Hex2Dec(c1) + 16 * Hex2Dec(c2) + Hex2Dec(c3);
  }

  method Validate(rb: RingBuffer) returns (status: Status)
    requires rb.Valid()
    ensures status == Check(rb.Contents())
  {
    if rb.size < FRAME_LENGTH {
      // not a big deal as the message may still be coming in
      return Incomplete;
    }
    var begin := rb.At(0);
    var end := rb.At(13);
    if begin != BEGIN || end != END {
      return BadFrame;
    }
    var stored := GetCrc(rb);
    var computed := ComputeCrc(rb);
    if stored != computed {
      return BadCrc;
    }
    return Ok;
  }

  method GetBytes(rb: RingBuffer) returns (ok: bool, v0: byte, v1: byte, v2: byte, v3: byte)
    requires rb.Valid()
    ensures ok <==> Check(rb.Contents()) == Ok
    ensures ok ==> Msg(v0, v1, v2, v3) == Values(rb.Contents())
    ensures !ok ==> v0 == v1 == v2 == v3 == 0
  {
    v0, v1, v2, v3 := 0, 0, 0, 0;
    var status := Validate(rb);
    if status != Ok {
      return false, v0, v1, v2, v3;
    }
    v0 := GetPair(rb, 1);
    v1 := GetPair(rb, 3);
    v2 := GetPair(rb, 5);
    v3 := GetPair(rb, 7);
    return true, v0, v1, v2, v3;
  }

  method GetPair(rb: RingBuffer, i: nat) returns (v: byte)
    requires rb.Valid() && i + 1 < |rb.Contents()|
    ensures v == FromHexPair(rb.Contents()[i], rb.Contents()[i + 1])
  {
    var hi := rb.At(i);
    var lo := rb.At(i + 1);
    v := FromHexPair(hi, lo);
  }

  /** Whatever was in the ring is gone; the frame of the four bytes fills it. */
  method SetBytes(rb: RingBuffer, v0: byte, v1: byte, v2: byte, v3: byte)
    requires rb.Valid() && rb.buff.Length == FRAME_LENGTH
    modifies rb, rb.buff
    ensures rb.Valid() && rb.buff == old(rb.buff)
    ensures rb.Contents() == Frame(Msg(v0, v1, v2, v3))
  {
    ghost var m := Msg(v0, v1, v2, v3);
    SetPayload(rb, v0, v1, v2, v3);
    BehindTheBracket(Payload(m));
    var crc := ComputeCrc(rb);
    PushCrc(rb, crc);
    assert rb.Contents() == [BEGIN] + Payload(m) + CrcChars(crc);
    rb.PushBack(END);
    assert rb.Contents() == [BEGIN] + Payload(m) + CrcChars(crc) + [END];
  }

  lemma BehindTheBracket(s: seq<byte>)
    ensures ([BEGIN] + s)[1..|s| + 1] == s
  {}

  method SetPayload(rb: RingBuffer, v0: byte, v1: byte, v2: byte, v3: byte)
    requires rb.Valid() && rb.buff.Length == FRAME_LENGTH
    modifies rb, rb.buff
    ensures rb.Valid() && rb.buff == old(rb.buff)
    ensures rb.Contents() == [BEGIN] + Payload(Msg(v0, v1, v2, v3))
  {
    rb.Clear();
    rb.PushBack(BEGIN);
    assert rb.Contents() == [BEGIN];
    PushPair(rb, v0);
    PushPair(rb, v1);
    PushPair(rb, v2);
    PushPair(rb, v3);
    assert rb.Contents() == [BEGIN] + HexPair(v0) + HexPair(v1) + HexPair(v2) + HexPair(v3);
    Grouped([BEGIN], HexPair(v0), HexPair(v1), HexPair(v2), HexPair(v3));
  }

  lemma Grouped(s: seq<byte>, a: seq<byte>, b: seq<byte>, c: seq<byte>, d: seq<byte>)
    ensures s + a + b + c + d == s + (a + b + c + d)
  {}

  method PushCrc(rb: RingBuffer, crc: word)
    requires rb.Valid() && |rb.Contents()| + 4 <= rb.buff.Length
    modifies rb, rb.buff
    ensures rb.Valid() && rb.buff == old(rb.buff)
    ensures rb.Contents() == old(rb.Contents()) + CrcChars(crc)
  {
    rb.PushBack(Dec2Hex(crc / 4096 % 16));
    rb.PushBack(Dec2Hex(crc / 256 % 16));
    rb.PushBack(Dec2Hex(crc / 16 % 16));
    rb.PushBack(Dec2Hex(crc % 16));
  }

  method PushPair(rb: RingBuffer, v: byte)
    requires rb.Valid() && |rb.Contents()| + 2 <= rb.buff.Length
    modifies rb, rb.buff
    ensures rb.Valid() && rb.buff == old(rb.buff)
    ensures rb.Contents() == old(rb.Contents()) + HexPair(v)
  {
    rb.PushBack(Dec2Hex(v / 16 % 16));
    rb.PushBack(Dec2Hex(v % 16));
  }
}
