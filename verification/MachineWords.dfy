/**
 The checksum as the program computes it, in 16-bit machine words with masks and shifts. It is the
 register of `Crc16`, number for number, and here given strings can be worked out.
 */
module MachineWords {
  import opened Bits
  import opened Crc16

  function ShiftWord(crc: bv16): bv16 {
    if crc & 1 == 0 then crc >> 1 else (crc >> 1) ^ 0xA001
  }

  function UpdateWord(crc: bv16, ch: bv16): bv16 {
    ShiftWord(ShiftWord(ShiftWord(ShiftWord(ShiftWord(ShiftWord(ShiftWord(ShiftWord(crc ^ ch))))))))
  }

  function CrcWord(crc: bv16, s: seq<bv16>): bv16
    decreases |s|
  {
    if s == [] then crc else CrcWord(UpdateWord(crc, s[0]), s[1..])
  }

  // ---------------------------------------------------------------------------
  // Words as numbers
  // ---------------------------------------------------------------------------

  function Low(v: bv16): nat {
    if v & 1 == 1 then 1 else 0
  }

  function Number(v: bv16): nat {
    if v == 0 then 0 else Low(v) + 2 * Number(v >> 1)
  }

  lemma Peel(v: bv16)
    ensures Number(v) == Low(v) + 2 * Number(v >> 1)
    ensures Number(v) % 2 == Low(v) && Number(v) / 2 == Number(v >> 1)
  {
    if v == 0 { assert v >> 1 == 0 && Low(v) == 0; }
  }

  lemma XorPeel(a: nat, b: nat)
    ensures Xor(a, b) == (if a % 2 == b % 2 then 0 else 1) + 2 * Xor(a / 2, b / 2)
  {}

  /** The machine's exclusive-or is that of the numbers. */
  lemma {:induction false} XorOfWords(v: bv16, w: bv16)
    ensures Number(v ^ w) == Xor(Number(v), Number(w))
    decreases v | w
  {
    if v == 0 && w == 0 {
    } else {
      XorShifted(v, w);
      XorOfWords(v >> 1, w >> 1);
      XorMore(v, w, v ^ w);
    }
  }

  lemma XorShifted(v: bv16, w: bv16)
    ensures (v ^ w) >> 1 == (v >> 1) ^ (w >> 1)
    ensures v != 0 || w != 0 ==> (v >> 1) | (w >> 1) < v | w
    ensures Low(v ^ w) == if Low(v) == Low(w) then 0 else 1
  {}

  lemma XorMore(v: bv16, w: bv16, x: bv16)
    requires Number(x >> 1) == Xor(Number(v >> 1), Number(w >> 1))
    requires Low(x) == if Low(v) == Low(w) then 0 else 1
    ensures Number(x) == Xor(Number(v), Number(w))
  {
    Peel(v);
    Peel(w);
    Peel(x);
    XorPeel(Number(v), Number(w));
  }

  predicate Fits(v: bv16, n: nat) {
    if n == 0 then v == 0 else Fits(v >> 1, n - 1)
  }

  lemma {:induction false} FitsBelow(v: bv16, n: nat)
    requires Fits(v, n)
    ensures Number(v) < Pow2(n)
    decreases n
  {
    if n == 0 {
    } else {
      FitsBelow(v >> 1, n - 1);
      Peel(v);
    }
  }

  lemma FitsFourMore(v: bv16, n: nat)
    requires Fits(v >> 1 >> 1 >> 1 >> 1, n)
    ensures Fits(v, n + 4)
  {
    assert Fits(v >> 1 >> 1 >> 1, n + 1);
    assert Fits(v >> 1 >> 1, n + 2);
  }

  lemma NumberIsWord(v: bv16)
    ensures Number(v) < 0x1_0000
  {
    var a := v >> 1 >> 1 >> 1 >> 1;
    var b := a >> 1 >> 1 >> 1 >> 1;
    var c := b >> 1 >> 1 >> 1 >> 1;
    assert c >> 1 >> 1 >> 1 >> 1 == 0;
    FitsFourMore(c, 0);
    FitsFourMore(b, 4);
    FitsFourMore(a, 8);
    FitsFourMore(v, 12);
    FitsBelow(v, 16);
    WordLimit();
  }

  lemma FourPlaces(v: bv16, a: bv16, b: bv16, c: bv16, d: bv16)
    requires a == v >> 1 && b == a >> 1 && c == b >> 1 && d == c >> 1
    ensures Number(v) == Low(v) + 2 * Low(a) + 4 * Low(b) + 8 * Low(c) + 16 * Number(d)
  {
    Peel(v);
    Peel(a);
    Peel(b);
    Peel(c);
  }

  lemma PolynomialNumber()
    ensures Number(0xA001) == CRC_POLY
  {
    FourPlaces(0xA001, 0x5000, 0x2800, 0x1400, 0xA00);
    FourPlaces(0xA00, 0x500, 0x280, 0x140, 0xA0);
    FourPlaces(0xA0, 0x50, 0x28, 0x14, 0xA);
    FourPlaces(0xA, 0x5, 0x2, 0x1, 0x0);
  }

  lemma OnesNumber()
    ensures Number(0xFFFF) == CRC_INIT
  {
    FourPlaces(0xFFFF, 0x7FFF, 0x3FFF, 0x1FFF, 0xFFF);
    FourPlaces(0xFFF, 0x7FF, 0x3FF, 0x1FF, 0xFF);
    FourPlaces(0xFF, 0x7F, 0x3F, 0x1F, 0xF);
    FourPlaces(0xF, 0x7, 0x3, 0x1, 0x0);
  }

  // ---------------------------------------------------------------------------
  // The machine computes the register
  // ---------------------------------------------------------------------------

  lemma ShiftOfWord(crc: bv16)
    ensures Number(crc) < 0x1_0000 && Number(ShiftWord(crc)) == Shift(Number(crc))
  {
    NumberIsWord(crc);
    Peel(crc);
    XorOfWords(crc >> 1, 0xA001);
    PolynomialNumber();
  }

  lemma EightShiftsOfWord(v: bv16)
    ensures Number(v) < 0x1_0000
    ensures Number(ShiftWord(ShiftWord(ShiftWord(ShiftWord(ShiftWord(ShiftWord(ShiftWord(ShiftWord(v))))))))) ==
      Shift(Shift(Shift(Shift(Shift(Shift(Shift(Shift(Number(v)))))))))
  {
    var a := ShiftWord(v);
    var b := ShiftWord(a);
    var c := ShiftWord(b);
    var d := ShiftWord(c);
    var e := ShiftWord(d);
    var f := ShiftWord(e);
    var g := ShiftWord(f);
    ShiftOfWord(v);
    ShiftOfWord(a);
    ShiftOfWord(b);
    ShiftOfWord(c);
    ShiftOfWord(d);
    ShiftOfWord(e);
    ShiftOfWord(f);
    ShiftOfWord(g);
  }

  lemma UpdateOfWord(crc: bv16, ch: bv16)
    requires Number(ch) < 256
    ensures Number(crc) < 0x1_0000 && Number(UpdateWord(crc, ch)) == Update(Number(crc), Number(ch))
  {
    NumberIsWord(crc);
    XorOfWords(crc, ch);
    EightShiftsOfWord(crc ^ ch);
  }

  /** The characters of s are the bytes t. */
  predicate Spells(s: seq<bv16>, t: seq<byte>) {
    |s| == |t| && forall i :: 0 <= i < |s| ==> Number(s[i]) == t[i]
  }

  /** Over any string the machine's checksum, read as a number, is the register's. */
  lemma {:induction false} CrcOfWords(crc: bv16, s: seq<bv16>, t: seq<byte>)
    requires Spells(s, t)
    ensures Number(crc) < 0x1_0000 && Number(CrcWord(crc, s)) == Crc(Number(crc), t)
    decreases |s|
  {
    NumberIsWord(crc);
    if s == [] {
    } else {
      UpdateOfWord(crc, s[0]);
      CrcOfWords(UpdateWord(crc, s[0]), s[1..], t[1..]);
    }
  }
}
