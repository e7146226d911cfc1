/**
 Frames as they stand on the wire, character by character: what any message's frame reads, and two
 frames written out in full.
 */
module KnownFrames {
  import opened Bits
  import opened Crc16
  import opened MachineWords
  import opened Frames
  import opened Link
  import opened EndToEnd

  /** 0123456789abcdef */
  const HEX_DIGITS: seq<byte> :=
    [0x30, 0x31, 0x32, 0x33, 0x34, 0x35, 0x36, 0x37, 0x38, 0x39, 0x61, 0x62, 0x63, 0x64, 0x65, 0x66]

  lemma DigitText(d: nat)
    requires d < 16
    ensures Dec2Hex(d) == HEX_DIGITS[d]
  {}

  /** Both cases of a digit read as its value, and every other character as zero. */
  lemma DigitRead(h: byte)
    ensures forall d :: 0 <= d < 16 && (h == HEX_DIGITS[d] || (d >= 10 && h + 32 == HEX_DIGITS[d])) ==> Hex2Dec(h) == d
    ensures Hex2Dec(h) != 0 ==> h == HEX_DIGITS[Hex2Dec(h)] || h + 32 == HEX_DIGITS[Hex2Dec(h)]
  {}

  /** Two characters are the digits of v, the high one first. */
  predicate Written(hi: byte, lo: byte, v: nat)
    requires v < 256
  {
    hi == HEX_DIGITS[v / 16] && lo == HEX_DIGITS[v % 16]
  }

  lemma PairText(v: byte)
    ensures Written(HexPair(v)[0], HexPair(v)[1], v)
  {
    DigitText(v / 16);
    DigitText(v % 16);
  }

  lemma CrcText(crc: word)
    ensures var s := CrcChars(crc); Written(s[0], s[1], crc / 256) && Written(s[2], s[3], crc % 256)
  {
    CrcPlaces(crc);
    DigitText(crc / 4096 % 16);
    DigitText(crc / 256 % 16);
    DigitText(crc / 16 % 16);
    DigitText(crc % 16);
  }

  lemma CrcPlaces(crc: word)
    ensures crc / 4096 % 16 == crc / 256 / 16 && crc / 256 % 16 == crc / 256 % 16
    ensures crc / 16 % 16 == crc % 256 / 16 && crc % 16 == crc % 256 % 16
  {}

  lemma Placed(w: seq<byte>, a: seq<byte>, b: seq<byte>, c: seq<byte>, d: seq<byte>, q: seq<byte>)
    requires |a| == |b| == |c| == |d| == 2 && |q| == 4
    requires w == [BEGIN] + (a + b + c + d) + q + [END]
    ensures w == [BEGIN, a[0], a[1], b[0], b[1], c[0], c[1], d[0], d[1], q[0], q[1], q[2], q[3], END]
    ensures w[1..9] == a + b + c + d
  {}

  /** A bracket, the four bytes of m in order, four characters for crc, and a bracket. */
  predicate ReadsAs(w: seq<byte>, m: Msg, crc: word) {
    && |w| == 14 && w[0] == 0x5B && w[13] == 0x5D
    && Written(w[1], w[2], m.kind) && Written(w[3], w[4], m.p1)
    && Written(w[5], w[6], m.p2) && Written(w[7], w[8], m.p3)
    && Written(w[9], w[10], crc / 256) && Written(w[11], w[12], crc % 256)
  }

  /** What stands between the brackets of a frame: its message, and the checksum of the eight characters before it. */
  lemma FrameText(m: Msg)
    ensures |Frame(m)| == 14 && ReadsAs(Frame(m), m, Crc(CRC_INIT, Frame(m)[1..9]))
  {
    var crc := Crc(CRC_INIT, Payload(m));
    Placed(Frame(m), HexPair(m.kind), HexPair(m.p1), HexPair(m.p2), HexPair(m.p3), CrcChars(crc));
    PairText(m.kind);
    PairText(m.p1);
    PairText(m.p2);
    PairText(m.p3);
    CrcText(crc);
  }

  // ---------------------------------------------------------------------------
  // Two frames in full
  // ---------------------------------------------------------------------------

  /** From word k of s on the register goes from a to b with the next word. */
  lemma OneUpdate(s: seq<bv16>, k: nat, a: bv16, b: bv16)
    requires k < |s| && UpdateWord(a, s[k]) == b
    ensures CrcWord(a, s[k..]) == CrcWord(b, s[k + 1..])
  {
    assert s[k..][1..] == s[k + 1..];
  }

  lemma ZeroChecksum(s: seq<bv16>)
    requires s == [0x30, 0x30, 0x30, 0x30, 0x30, 0x30, 0x30, 0x30]
    ensures CrcWord(0xFFFF, s) == 0xF32D
  {
    assert s[0..] == s;
    OneUpdate(s, 0, 0xFFFF, 0x54BF);
    OneUpdate(s, 1, 0x54BF, 0xA415);
    OneUpdate(s, 2, 0xA415, 0xDB65);
    OneUpdate(s, 3, 0xDB65, 0x3F1B);
    OneUpdate(s, 4, 0x3F1B, 0x1F7F);
    OneUpdate(s, 5, 0x1F7F, 0xF45E);
    OneUpdate(s, 6, 0xF45E, 0xEC75);
    OneUpdate(s, 7, 0xEC75, 0xF32D);
  }

  lemma RelayOneChecksum(s: seq<bv16>)
    requires s == [0x33, 0x31, 0x64, 0x31, 0x30, 0x31, 0x66, 0x66]
    ensures CrcWord(0xFFFF, s) == 0x6CA3
  {
    assert s[0..] == s;
    OneUpdate(s, 0, 0xFFFF, 0x55FF);
    OneUpdate(s, 1, 0x55FF, 0x94D4);
    OneUpdate(s, 2, 0x94D4, 0xB495);
    OneUpdate(s, 3, 0xB495, 0xBBB5);
    OneUpdate(s, 4, 0xBBB5, 0xA37A);
    OneUpdate(s, 5, 0xA37A, 0x37E3);
    OneUpdate(s, 6, 0x37E3, 0xA3F6);
    OneUpdate(s, 7, 0xA3F6, 0x6CA3);
  }

  lemma CharNumbers()
    ensures Number(0x30) == 0x30 && Number(0x31) == 0x31 && Number(0x33) == 0x33
    ensures Number(0x64) == 0x64 && Number(0x66) == 0x66
  {
    ThreeNumbers();
    TwoNumbers();
  }

  lemma ThreeNumbers()
    ensures Number(0x30) == 0x30 && Number(0x31) == 0x31 && Number(0x33) == 0x33
  {
    FourPlaces(0x30, 0x18, 0xC, 0x6, 0x3);
    FourPlaces(0x31, 0x18, 0xC, 0x6, 0x3);
    FourPlaces(0x33, 0x19, 0xC, 0x6, 0x3);
    FourPlaces(0x3, 0x1, 0x0, 0x0, 0x0);
  }

  lemma TwoNumbers()
    ensures Number(0x64) == 0x64 && Number(0x66) == 0x66
  {
    FourPlaces(0x64, 0x32, 0x19, 0xC, 0x6);
    FourPlaces(0x66, 0x33, 0x19, 0xC, 0x6);
    FourPlaces(0x6, 0x3, 0x1, 0x0, 0x0);
  }

  lemma ZeroNumber()
    ensures Number(0xF32D) == 0xF32D
  {
    FourPlaces(0xF32D, 0x7996, 0x3CCB, 0x1E65, 0xF32);
    FourPlaces(0xF32, 0x799, 0x3CC, 0x1E6, 0xF3);
    FourPlaces(0xF3, 0x79, 0x3C, 0x1E, 0xF);
    FourPlaces(0xF, 0x7, 0x3, 0x1, 0x0);
  }

  lemma ZeroValue(s: seq<bv16>, t: seq<byte>)
    requires s == [0x30, 0x30, 0x30, 0x30, 0x30, 0x30, 0x30, 0x30]
    requires t == [0x30, 0x30, 0x30, 0x30, 0x30, 0x30, 0x30, 0x30]
    ensures Crc(CRC_INIT, t) == 0xF32D
  {
    CharNumbers();
    CrcOfWords(0xFFFF, s, t);
    OnesNumber();
    ZeroNumber();
    ZeroChecksum(s);
  }

  /** The frame of four zeros is [00000000f32d]. */
  lemma ZeroFrame(m: Msg)
    requires m == Msg(0, 0, 0, 0)
    ensures Frame(m) == [0x5B, 0x30, 0x30, 0x30, 0x30, 0x30, 0x30, 0x30, 0x30, 0x66, 0x33, 0x32, 0x64, 0x5D]
  {
    FrameText(m);
    var crc := Crc(CRC_INIT, Frame(m)[1..9]);
    ZeroPayload(Frame(m), m, crc);
    ZeroValue([0x30, 0x30, 0x30, 0x30, 0x30, 0x30, 0x30, 0x30], Frame(m)[1..9]);
    ZeroText(Frame(m), m, crc);
  }

  lemma ZeroPayload(w: seq<byte>, m: Msg, crc: word)
    requires m == Msg(0, 0, 0, 0) && ReadsAs(w, m, crc)
    ensures w[1..9] == [0x30, 0x30, 0x30, 0x30, 0x30, 0x30, 0x30, 0x30]
  {}

  lemma ZeroText(w: seq<byte>, m: Msg, crc: word)
    requires m == Msg(0, 0, 0, 0) && ReadsAs(w, m, crc) && crc == 0xF32D
    ensures w == [0x5B, 0x30, 0x30, 0x30, 0x30, 0x30, 0x30, 0x30, 0x30, 0x66, 0x33, 0x32, 0x64, 0x5D]
  {}

  lemma RelayOneNumber()
    ensures Number(0x6CA3) == 0x6CA3
  {
    FourPlaces(0x6CA3, 0x3651, 0x1B28, 0xD94, 0x6CA);
    FourPlaces(0x6CA, 0x365, 0x1B2, 0xD9, 0x6C);
    FourPlaces(0x6C, 0x36, 0x1B, 0xD, 0x6);
    FourPlaces(0x6, 0x3, 0x1, 0x0, 0x0);
  }

  lemma RelayOneValue(s: seq<bv16>, t: seq<byte>)
    requires s == [0x33, 0x31, 0x64, 0x31, 0x30, 0x31, 0x66, 0x66]
    requires t == [0x33, 0x31, 0x64, 0x31, 0x30, 0x31, 0x66, 0x66]
    ensures Crc(CRC_INIT, t) == 0x6CA3
  {
    CharNumbers();
    CrcOfWords(0xFFFF, s, t);
    OnesNumber();
    RelayOneNumber();
    RelayOneChecksum(s);
  }

  /** The frame of the message that switches relay 1 on is [31d101ff6ca3]. */
  lemma RelayOneFrame(m: Msg)
    requires m == Msg(0x31, 0xD1, 0x01, 0xFF)
    ensures Frame(m) == [0x5B, 0x33, 0x31, 0x64, 0x31, 0x30, 0x31, 0x66, 0x66, 0x36, 0x63, 0x61, 0x33, 0x5D]
  {
    FrameText(m);
    var crc := Crc(CRC_INIT, Frame(m)[1..9]);
    RelayOnePayload(Frame(m), m, crc);
    RelayOneValue([0x33, 0x31, 0x64, 0x31, 0x30, 0x31, 0x66, 0x66], Frame(m)[1..9]);
    RelayOneText(Frame(m), m, crc);
  }

  lemma RelayOnePayload(w: seq<byte>, m: Msg, crc: word)
    requires m == Msg(0x31, 0xD1, 0x01, 0xFF) && ReadsAs(w, m, crc)
    ensures w[1..9] == [0x33, 0x31, 0x64, 0x31, 0x30, 0x31, 0x66, 0x66]
  {}

  lemma RelayOneText(w: seq<byte>, m: Msg, crc: word)
    requires m == Msg(0x31, 0xD1, 0x01, 0xFF) && ReadsAs(w, m, crc) && crc == 0x6CA3
    ensures w == [0x5B, 0x33, 0x31, 0x64, 0x31, 0x30, 0x31, 0x66, 0x66, 0x36, 0x63, 0x61, 0x33, 0x5D]
  {}

  /** What the host writes to switch relay 1 on: that frame and a line feed. */
  lemma RelayOnePacket(c: Codec, m: Msg)
    requires Wired(c) && m == Msg(0x31, 0xD1, 0x01, 0xFF)
    ensures Packet(c, m)
      == [0x5B, 0x33, 0x31, 0x64, 0x31, 0x30, 0x31, 0x66, 0x66, 0x36, 0x63, 0x61, 0x33, 0x5D, 0x0A]
  {
    RelayOneFrame(m);
    assert BuildsFrame(c, m);
  }
}
