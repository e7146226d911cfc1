/**
 The two loops that turn bytes into base-32 text and back. Each walks the number from its low
 end with one leftover byte and a signed shift count: the part of `src` still to be used is
 `src >> -sft`, and the next input lands `sft` places up.
 */
module Base32Coder {
  import opened Bits
  import opened Base32

  /** `Pow2` as a table, for n up to the width of a byte: the proofs below go through its cases. */
  function Weight(n: nat): nat
    requires n <= 8
  {
    if n == 0 then 1 else if n == 1 then 2 else if n == 2 then 4 else if n == 3 then 8 else
    if n == 4 then 16 else if n == 5 then 32 else if n == 6 then 64 else if n == 7 then 128 else 256
  }

  /** `src << sft`, and `src >> -sft` for a negative count. */
  function Shifted(src: byte, sft: int): nat
    requires -8 <= sft <= 8
  {
    if sft < 0 then src / Weight(-sft) else src * Weight(sft)
  }

  /** What is left of v above its k low base-32 digits. */
  function Rest32(v: nat, k: nat): nat {
    if k == 0 then v else Rest32(v, k - 1) / 32
  }

  lemma {:induction false} Rest32Shift(v: nat, k: nat)
    ensures Rest32(v, k + 1) == Rest32(v / 32, k)
    decreases k
  {
    if k == 0 {
    } else {
      Rest32Shift(v, k - 1);
    }
  }

  lemma {:induction false} DigitAt(v: nat, t: nat, k: nat)
    requires k < t
    ensures DigitsOf(v, t)[t - 1 - k] == Rest32(v, k) % 32
    decreases t
  {
    if k == 0 {
    } else {
      DigitAt(v / 32, t - 1, k - 1);
      Rest32Shift(v, k - 1);
    }
  }

  /** The number still to be written: the unused part of src with `rest` above it. */
  function Ahead(src: byte, sft: int, rest: nat): nat
    requires -8 <= sft <= -1
  {
    Shifted(src, sft) + Weight(8 + sft) * rest
  }

  lemma OrAdds(c: nat, b: nat, e: nat)
    requires e <= 7 && c < Weight(e)
    ensures Or(c, Weight(e) * b) == c + Weight(e) * b
  {
    WeightIsPow2(e);
    OrDisjoint(c, b, e);
  }

  lemma WeightIsPow2(e: nat)
    requires e <= 8
    ensures Weight(e) == Pow2(e)
  {
    assert Pow2(1) == 2 && Pow2(2) == 4 && Pow2(3) == 8 && Pow2(4) == 16;
    assert Pow2(5) == 32 && Pow2(6) == 64 && Pow2(7) == 128 && Pow2(8) == 256;
  }

  lemma QuotientAndDigit(total: nat, q: nat, r: nat)
    requires total == 32 * q + r && r < 32
    ensures total / 32 == q && total % 32 == r
  {}

  lemma SplitByte(b: byte, e: nat)
    requires e <= 4
    ensures Weight(e) * b == 32 * (b / Weight(5 - e)) + Weight(e) * (b % Weight(5 - e))
    ensures Weight(e) * (b % Weight(5 - e)) <= 32 - Weight(e)
  {
    if e == 0 {} else if e == 1 {} else if e == 2 {} else if e == 3 {} else {}
  }

  lemma LowPart(b: byte, e: nat)
    requires e <= 4
    ensures b * Weight(e) % 32 == Weight(e) * (b % Weight(5 - e))
  {
    SplitByte(b, e);
    QuotientAndDigit(Weight(e) * b, b / Weight(5 - e), Weight(e) * (b % Weight(5 - e)));
  }

  lemma SplitRest(e: nat, b: byte, rest: nat)
    requires e <= 4
    ensures Weight(e) * (b + 256 * rest) == Weight(e) * b + 32 * (Weight(3 + e) * rest)
  {
    if e == 0 {} else if e == 1 {} else if e == 2 {} else if e == 3 {} else {}
  }

  lemma LeftoverBelow(src: byte, sft: int)
    requires -8 <= sft <= -1
    ensures Shifted(src, sft) < Weight(8 + sft)
  {}

  lemma OrOfTwo(c: byte, e: nat, b: byte)
    requires e <= 4 && c < Weight(e)
    ensures c + Weight(e) * (b % Weight(5 - e)) < 32
    ensures Or(c % 32, b * Weight(e) % 32) == c + Weight(e) * (b % Weight(5 - e))
  {
    var low := b % Weight(5 - e);
    OrAdds(c, low, e);
    LowPart(b, e);
    SplitByte(b, e);
    LowBitsFit(c, Weight(e), Weight(e) * low, b * Weight(e) % 32);
  }

  lemma LowBitsFit(c: nat, w: nat, sum: nat, bits: nat)
    requires c < w <= 16 && sum <= 32 - w && bits == sum && Or(c, sum) == c + sum
    ensures c + sum < 32 && Or(c % 32, bits) == c + sum
  {
    assert c % 32 == c;
  }

  lemma AheadSplits(c: nat, e: nat, b: byte, rest: nat)
    requires e <= 4
    ensures (c + Weight(e) * (b + 256 * rest)
      == 32 * (b / Weight(5 - e) + Weight(3 + e) * rest) + (c + Weight(e) * (b % Weight(5 - e))))
  {
    SplitByte(b, e);
    SplitRest(e, b, rest);
  }

  /** A digit that takes the leftover bits below and the next byte's above them. */
  lemma DigitOfTwo(src: byte, sft: int, b: byte, rest: nat)
    requires -8 <= sft < -3
    ensures var ahead := Ahead(src, sft, b + 256 * rest);
      && Or(Shifted(src, sft) % 32, Shifted(b, sft + 8) % 32) == ahead % 32
      && ahead / 32 == Ahead(b, sft + 3, rest)
  {
    var c, e := Shifted(src, sft), sft + 8;
    LeftoverBelow(src, sft);
    OrOfTwo(c, e, b);
    AheadSplits(c, e, b, rest);
    QuotientAndDigit(Ahead(src, sft, b + 256 * rest), b / Weight(5 - e) + Weight(3 + e) * rest,
                     c + Weight(e) * (b % Weight(5 - e)));
  }

  lemma SplitLeftover(src: byte, sft: int, rest: nat)
    requires -3 <= sft <= -1
    ensures Shifted(src, sft) / 32 == Shifted(src, sft - 5)
    ensures Weight(8 + sft) * rest == 32 * (Weight(3 + sft) * rest)
  {
    if sft == -1 {} else if sft == -2 {} else {}
  }

  /** A digit that lies within the leftover bits. */
  lemma DigitOfOne(src: byte, sft: int, rest: nat)
    requires -3 <= sft <= -1
    ensures Shifted(src, sft) % 32 == Ahead(src, sft, rest) % 32
    ensures Ahead(src, sft, rest) / 32 == Ahead(src, sft - 5, rest)
  {
    SplitLeftover(src, sft, rest);
    var c := Shifted(src, sft);
    QuotientAndDigit(Ahead(src, sft, rest), c / 32 + Weight(3 + sft) * rest, c % 32);
  }

  /** What one turn of the encoding loop does, by which of its three ways it goes. */
  lemma EncodeStep(v: nat, k: nat, src: byte, sft: int, rest: seq<byte>)
    requires -8 <= sft <= -1 && Rest32(v, k) == Ahead(src, sft, LittleEndian(rest))
    ensures sft < -3 && rest != [] ==>
      && Or(Shifted(src, sft) % 32, Shifted(rest[0], sft + 8) % 32) == Rest32(v, k) % 32
      && Rest32(v, k + 1) == Ahead(rest[0], sft + 3, LittleEndian(rest[1..]))
    ensures sft >= -3 ==>
      && Shifted(src, sft) % 32 == Rest32(v, k) % 32
      && Rest32(v, k + 1) == Ahead(src, sft - 5, LittleEndian(rest))
    ensures rest == [] ==> Shifted(src, sft) % 32 == Rest32(v, k) % 32
  {
    if sft >= -3 {
      DigitOfOne(src, sft, LittleEndian(rest));
    } else if rest != [] {
      DigitOfTwo(src, sft, rest[0], LittleEndian(rest[1..]));
    }
  }

  /** The loop's state before the digit of place k: i bytes taken, the last of them src. */
  ghost predicate Encoding(input: seq<byte>, k: nat, i: nat, src: byte, sft: int) {
    && i <= |input| && -8 <= sft <= -1
    && sft == 8 * (i - 1) - 5 * k
    && Rest32(LittleEndian(input), k) == Ahead(src, sft, LittleEndian(input[i..]))
  }

  function DigitDue(bs: seq<byte>, k: nat): digit {
    Rest32(LittleEndian(bs), k) % 32
  }

  lemma EncodeTurn(input: seq<byte>, k: nat, i: nat, src: byte, sft: int)
    requires Encoding(input, k, i, src, sft) && k < TextLength(|input|)
    ensures sft < -3 && i < |input| ==>
      && Or(Shifted(src, sft) % 32, Shifted(input[i], sft + 8) % 32) == DigitDue(input, k)
      && Encoding(input, k + 1, i + 1, input[i], sft + 3)
    ensures sft >= -3 || i == |input| ==> Shifted(src, sft) % 32 == DigitDue(input, k)
    ensures sft >= -3 ==> Encoding(input, k + 1, i, src, sft - 5)
    ensures sft < -3 && i == |input| ==> k + 1 == TextLength(|input|)
  {
    EncodeStep(LittleEndian(input), k, src, sft, input[i..]);
    if i < |input| {
      assert input[i..][1..] == input[i + 1..];
    }
  }

  lemma TextAt(bs: seq<byte>, k: nat)
    requires k < TextLength(|bs|)
    ensures |EncodedText(bs)| == TextLength(|bs|)
    ensures EncodedText(bs)[TextLength(|bs|) - 1 - k] == ALPHABET[DigitDue(bs, k)]
  {
    DigitAt(LittleEndian(bs), TextLength(|bs|), k);
  }

  lemma TextIs(bs: seq<byte>, s: string)
    requires |s| == TextLength(|bs|)
    requires forall j :: 0 <= j < |s| ==> s[j] == ALPHABET[DigitDue(bs, |s| - 1 - j)]
    ensures s == EncodedText(bs)
  {
    forall j | 0 <= j < |s|
      ensures s[j] == EncodedText(bs)[j]
    {
      TextAt(bs, |s| - 1 - j);
    }
  }

  method Zero<T>(buf: array<T>, zero: T)
    modifies buf
    ensures forall j :: 0 <= j < buf.Length ==> buf[j] == zero
  {
    for j := 0 to buf.Length
      invariant forall l :: 0 <= l < j ==> buf[l] == zero
    {
      buf[j] := zero;
    }
  }

  /** One turn of the encoding loop, up to the place where it stores a character. */
  method NextDigit(input: seq<byte>, i: nat, src: byte, sft: int, ghost k: nat)
      returns (bits: digit, j: nat, next: byte, nextSft: int)
    requires Encoding(input, k, i, src, sft) && k < TextLength(|input|)
    ensures bits == DigitDue(input, k)
    ensures k + 1 < TextLength(|input|) ==> Encoding(input, k + 1, j, next, nextSft)
  {
    EncodeTurn(input, k, i, src, sft);
    bits, j, next, nextSft := Shifted(src, sft) % 32, i, src, sft;
    if nextSft < -3 && j < |input| {
      next := input[j];
      j := j + 1;
      nextSft := nextSft + 8;
      bits := Or(bits, Shifted(next, nextSft) % 32);
    }
    nextSft := nextSft - 5;
  }

  /** The encoding loop: from the last character to the first, the rest of the buffer left alone. */
  method WriteDigits(input: seq<byte>, out: array<char>, otot: nat)
    requires otot == TextLength(|input|) <= out.Length
    modifies out
    ensures out[..otot] == EncodedText(input)
    ensures out[otot..] == old(out[otot..])
  {
    var sft, src: byte, i, o := -8, 0, 0, otot - 1;
    while o >= 0
      invariant -1 <= o < otot
      invariant o >= 0 ==> Encoding(input, otot - 1 - o, i, src, sft)
      invariant forall j :: o < j < otot ==> out[j] == ALPHABET[DigitDue(input, otot - 1 - j)]
      invariant out[otot..] == old(out[otot..])
    {
      var bits;
      bits, i, src, sft := NextDigit(input, i, src, sft, otot - 1 - o);
      out[o] := ALPHABET[bits];
      o := o - 1;
    }
    TextIs(input, out[..otot]);
  }

  method Encode(input: seq<byte>, out: array?<char>) returns (n: int)
    requires 8 * |input| < 0x8000_0000
    modifies out
    ensures out == null ==> n == TextLength(|input|)
    ensures out != null && out.Length < TextLength(|input|) ==>
      n == -1 && forall j :: 0 <= j < out.Length ==> out[j] == '\0'
    ensures out != null && out.Length >= TextLength(|input|) ==>
      && n == TextLength(|input|) == |EncodedText(input)|
      && out[..n] == EncodedText(input)
      && forall j :: n <= j < out.Length ==> out[j] == '\0'
  {
    if out != null {
      Zero(out, '\0');
    }
    var bitc := |input| * 8;
    var whol := bitc / 5;
    var otot := whol + if bitc % 5 != 0 then 1 else 0;
    if out == null {
      return otot;
    }
    if out.Length < otot {
      return -1;
    }
    WriteDigits(input, out, otot);
    n := otot;
  }

  // Decoding

  /** The k-th digit from the low end. */
  function Place(ds: seq<byte>, k: nat): byte
    requires k < |ds|
  {
    ds[|ds| - 1 - k]
  }

  /** The first digit no bit of which lies below byte o. */
  function FirstDigit(o: nat): (k: nat)
    ensures 0 <= 5 * k - 8 * o <= 4
  {
    (8 * o + 4) / 5
  }

  /** What byte o holds once the digits below place k are in, the one before its first shifted out of the way. */
  function Gathered(ds: seq<byte>, o: nat, k: nat): byte
    requires FirstDigit(o) <= k <= |ds| && 5 * (k - 1) - 8 * o <= 7
    decreases k
  {
    if k == FirstDigit(o) then
      if k == 0 then 0 else Place(ds, k - 1) / Weight(8 * o - 5 * (k - 1))
    else
      var below, here := Gathered(ds, o, k - 1), Place(ds, k - 1) * Weight(5 * (k - 1) - 8 * o) % 256;
      OrOfBytes(below, here);
      Or(below, here)
  }

  /** Byte o once all the digits it takes are in. */
  function ByteDue(ds: seq<byte>, o: nat): byte
    requires o < ByteLength(|ds|)
  {
    Gathered(ds, o, FirstDigit(o + 1))
  }

  /** The bytes decoding makes of any digits, those of unknown characters (0xFF) included. */
  function Regrouped(ds: seq<byte>): (bs: seq<byte>)
    ensures |bs| == ByteLength(|ds|)
  {
    seq(ByteLength(|ds|), o requires 0 <= o < ByteLength(|ds|) => ByteDue(ds, o))
  }

  lemma OrOfBytes(a: byte, b: byte)
    ensures Or(a, b) < 256
  {
    WeightIsPow2(7);
    assert Pow2(8) == 2 * Pow2(7);
    OrBelow(a, b, 8);
  }

  /** A byte made of what is already there and two digits. */
  lemma TwoDigits(c: nat, e: nat, d: digit, d1: digit, rest: nat)
    requires e <= 2 && c < Weight(e)
    ensures var total := c + Weight(e) * (d + 32 * (d1 + 32 * rest));
      && Or(Or(c, d * Weight(e) % 256), d1 * Weight(e + 5) % 256) == total % 256
      && total / 256 == d1 / Weight(3 - e) + Weight(e + 2) * rest
  {
    var sum := c + Weight(e) * d;
    WholeDigit(c, e, d, d1 + 32 * rest);
    LastDigit(sum, e + 5, d1, rest);
    assert c + Weight(e) * (d + 32 * (d1 + 32 * rest)) == sum + Weight(e + 5) * (d1 + 32 * rest);
    assert 8 - (e + 5) == 3 - e && e + 5 - 3 == e + 2;
  }

  /** What is left of v above its o low bytes. */
  function Rest256(v: nat, o: nat): nat {
    if o == 0 then v else Rest256(v, o - 1) / 256
  }

  lemma {:induction false} Rest256Shift(v: nat, o: nat)
    ensures Rest256(v, o + 1) == Rest256(v / 256, o)
    decreases o
  {
    if o == 0 {
    } else {
      Rest256Shift(v, o - 1);
    }
  }

  lemma {:induction false} ByteAt(v: nat, n: nat, o: nat)
    requires o < n
    ensures BytesOf(v, n)[o] == Rest256(v, o) % 256
    decreases n
  {
    if o == 0 {
    } else {
      ByteAt(v / 256, n - 1, o - 1);
      Rest256Shift(v, o - 1);
    }
  }

  lemma QuotientAndByte(total: nat, q: nat, r: nat)
    requires total == 256 * q + r && r < 256
    ensures total / 256 == q && total % 256 == r
  {}

  lemma SplitDigit(d: digit, e: nat)
    requires 3 <= e <= 7
    ensures Weight(e) * d == 256 * (d / Weight(8 - e)) + Weight(e) * (d % Weight(8 - e))
    ensures Weight(e) * (d % Weight(8 - e)) <= 256 - Weight(e)
  {
    if e == 3 {} else if e == 4 {} else if e == 5 {} else if e == 6 {} else {}
  }

  lemma SplitHigh(e: nat, d: digit, rest: nat)
    requires 3 <= e <= 7
    ensures Weight(e) * (d + 32 * rest) == Weight(e) * d + 256 * (Weight(e - 3) * rest)
  {
    if e == 3 {} else if e == 4 {} else if e == 5 {} else if e == 6 {} else {}
  }

  lemma LowPartOfDigit(d: digit, e: nat)
    requires 3 <= e <= 7
    ensures d * Weight(e) % 256 == Weight(e) * (d % Weight(8 - e))
  {
    SplitDigit(d, e);
    QuotientAndByte(Weight(e) * d, d / Weight(8 - e), Weight(e) * (d % Weight(8 - e)));
  }

  /** A byte whose last digit lands e places up, on what is already there. */
  lemma LastDigit(c: nat, e: nat, d: digit, rest: nat)
    requires 3 <= e <= 7 && c < Weight(e)
    ensures var total := c + Weight(e) * (d + 32 * rest);
      && Or(c, d * Weight(e) % 256) == total % 256
      && total / 256 == d / Weight(8 - e) + Weight(e - 3) * rest
  {
    var low := d % Weight(8 - e);
    LowPartOfDigit(d, e);
    OrAdds(c, low, e);
    SplitDigit(d, e);
    SplitHigh(e, d, rest);
    QuotientAndByte(c + Weight(e) * (d + 32 * rest), d / Weight(8 - e) + Weight(e - 3) * rest, c + Weight(e) * low);
  }

  /** A byte that takes one whole digit before its last. */
  lemma WholeDigit(c: nat, e: nat, d: digit, rest: nat)
    requires e <= 2 && c < Weight(e)
    ensures d * Weight(e) % 256 == Weight(e) * d && Or(c, Weight(e) * d) == c + Weight(e) * d < Weight(e + 5)
    ensures Weight(e) * (d + 32 * rest) == Weight(e) * d + Weight(e + 5) * rest
  {
    OrAdds(c, d, e);
    if e == 0 {} else if e == 1 {} else {}
  }

  ghost predicate AllDigits(ds: seq<byte>) {
    forall j :: 0 <= j < |ds| ==> ds[j] < 32
  }

  /** The byte before any of its own digits: leftover bits below, the rest of the number above them. */
  ghost predicate Aligned(ds: seq<byte>, o: nat) {
    var k := FirstDigit(o);
    k <= |ds| && Rest256(Spelled(ds), o) == Gathered(ds, o, k) + Weight(5 * k - 8 * o) * Rest32(Spelled(ds), k)
  }

  lemma {:induction false} AllAligned(ds: seq<byte>, o: nat)
    requires AllDigits(ds) && 8 * o <= 5 * |ds|
    ensures Aligned(ds, o)
    decreases o
  {
    if o == 0 {
    } else {
      AllAligned(ds, o - 1);
      ByteStep(ds, o - 1);
    }
  }

  lemma ByteStep(ds: seq<byte>, o: nat)
    requires AllDigits(ds) && 8 * (o + 1) <= 5 * |ds| && Aligned(ds, o)
    ensures Gathered(ds, o, FirstDigit(o + 1)) == Rest256(Spelled(ds), o) % 256
    ensures Aligned(ds, o + 1)
  {
    var k := FirstDigit(o);
    if 5 * k - 8 * o >= 3 {
      OneDigitByte(ds, o, k, 5 * k - 8 * o);
    } else {
      TwoDigitByte(ds, o, k, 5 * k - 8 * o);
    }
  }

  lemma OneDigitByte(ds: seq<byte>, o: nat, k: nat, e: nat)
    requires AllDigits(ds) && 8 * (o + 1) <= 5 * |ds| && Aligned(ds, o)
    requires k == FirstDigit(o) && e == 5 * k - 8 * o >= 3
    ensures Gathered(ds, o, k + 1) == Rest256(Spelled(ds), o) % 256
    ensures FirstDigit(o + 1) == k + 1 && Aligned(ds, o + 1)
  {
    LeftoverDigit(ds, o);
    GatherOne(ds, o, k, e);
    RestOfOne(ds, k);
    LastDigit(Gathered(ds, o, k), e, Place(ds, k), Rest32(Spelled(ds), k + 1));
  }

  lemma TwoDigitByte(ds: seq<byte>, o: nat, k: nat, e: nat)
    requires AllDigits(ds) && 8 * (o + 1) <= 5 * |ds| && Aligned(ds, o)
    requires k == FirstDigit(o) && e == 5 * k - 8 * o <= 2
    ensures Gathered(ds, o, k + 2) == Rest256(Spelled(ds), o) % 256
    ensures FirstDigit(o + 1) == k + 2 && Aligned(ds, o + 1)
  {
    LeftoverDigit(ds, o);
    GatherTwo(ds, o, k, e);
    RestOfTwo(ds, k);
    TwoDigits(Gathered(ds, o, k), e, Place(ds, k), Place(ds, k + 1), Rest32(Spelled(ds), k + 2));
  }

  lemma LeftoverDigit(ds: seq<byte>, o: nat)
    requires AllDigits(ds) && FirstDigit(o) <= |ds|
    ensures Gathered(ds, o, FirstDigit(o)) < Weight(5 * FirstDigit(o) - 8 * o)
  {}

  lemma RestOfOne(ds: seq<byte>, k: nat)
    requires k < |ds| && AllDigits(ds)
    ensures Rest32(Spelled(ds), k) == Place(ds, k) + 32 * Rest32(Spelled(ds), k + 1)
  {
    SpelledDigits(ds);
    DigitAt(Spelled(ds), |ds|, k);
  }

  lemma RestOfTwo(ds: seq<byte>, k: nat)
    requires k + 1 < |ds| && AllDigits(ds)
    ensures Rest32(Spelled(ds), k) == Place(ds, k) + 32 * (Place(ds, k + 1) + 32 * Rest32(Spelled(ds), k + 2))
  {
    RestOfOne(ds, k);
    RestOfOne(ds, k + 1);
  }

  lemma GatherOne(ds: seq<byte>, o: nat, k: nat, e: nat)
    requires k == FirstDigit(o) && k < |ds| && e == 5 * k - 8 * o >= 3
    ensures FirstDigit(o + 1) == k + 1
    ensures Gathered(ds, o, k + 1) == Or(Gathered(ds, o, k), Place(ds, k) * Weight(e) % 256)
    ensures Gathered(ds, o + 1, k + 1) == Place(ds, k) / Weight(8 - e)
  {
    assert FirstDigit(o + 1) == k + 1;
  }

  lemma GatherTwo(ds: seq<byte>, o: nat, k: nat, e: nat)
    requires k == FirstDigit(o) && k + 1 < |ds| && e == 5 * k - 8 * o <= 2
    ensures FirstDigit(o + 1) == k + 2
    ensures (Gathered(ds, o, k + 2)
      == Or(Or(Gathered(ds, o, k), Place(ds, k) * Weight(e) % 256), Place(ds, k + 1) * Weight(e + 5) % 256))
    ensures Gathered(ds, o + 1, k + 2) == Place(ds, k + 1) / Weight(3 - e)
  {
    assert FirstDigit(o + 1) == k + 2;
    assert Gathered(ds, o, k + 1) == Or(Gathered(ds, o, k), Place(ds, k) * Weight(e) % 256);
  }

  lemma RegroupedAt(ds: seq<byte>, o: nat)
    requires AllDigits(ds) && o < ByteLength(|ds|)
    ensures ByteDue(ds, o) == Rest256(Spelled(ds), o) % 256
  {
    AllAligned(ds, o);
    ByteStep(ds, o);
  }

  /** Of valid characters the loop makes exactly the low bytes of the number they spell. */
  lemma RegroupedIsDecoded(s: string)
    requires ValidText(s)
    ensures Regrouped(Digits(s)) == DecodedBytes(s)
  {
    CanonicalDigits(s);
    forall o | 0 <= o < ByteLength(|s|)
      ensures Regrouped(Digits(s))[o] == DecodedBytes(s)[o]
    {
      RegroupedAt(Digits(s), o);
      ByteAt(Spelled(Digits(s)), ByteLength(|s|), o);
    }
  }

  /** The loop's state before byte o: the characters from i on taken, the last of them src. */
  ghost predicate Decoding(text: string, o: nat, i: nat, src: byte, sft: int) {
    && i <= |text| && |text| - i == FirstDigit(o)
    && InHand(text, o, i, src, sft)
  }

  ghost predicate InHand(text: string, o: nat, i: nat, src: byte, sft: int)
    requires i <= |text|
  {
    && sft == 5 * (|text| - i - 1) - 8 * o
    && src == if i == |text| then 0 else DecodeChar(text[i])
  }

  /** Between turns of the inner loop: the digits of byte o from place j on are in. */
  ghost predicate Collected(text: string, o: nat, j: nat, bits: byte) {
    && j <= |text| && FirstDigit(o) <= |text| - j <= FirstDigit(o + 1)
    && bits == Gathered(Digits(text), o, |text| - j)
  }

  lemma Leftover(text: string, o: nat, i: nat, src: byte, sft: int)
    requires Decoding(text, o, i, src, sft)
    ensures -5 <= sft <= -1 && Shifted(src, sft) < 256
    ensures InHand(text, o, i, src, sft) && Collected(text, o, i, Shifted(src, sft))
  {}

  lemma GatherNext(text: string, o: nat, j: nat, next: byte, sft: int)
    requires j < |text| && FirstDigit(o) < |text| - j <= FirstDigit(o + 1)
    requires InHand(text, o, j, next, sft)
    ensures 0 <= sft <= 7
    ensures var below := Gathered(Digits(text), o, |text| - j - 1);
      Or(below, Shifted(next, sft) % 256) == Gathered(Digits(text), o, |text| - j)
  {}

  lemma NextInPlace(text: string, o: nat, j: nat, next: byte, sft: nat, below: byte, bits: byte)
    requires j < |text| && sft < 8 && Collected(text, o, j + 1, below)
    requires InHand(text, o, j, next, sft) && bits == Or(below, Shifted(next, sft) % 256)
    ensures Collected(text, o, j, bits)
  {
    Places(o, |text| - j);
    GatherNext(text, o, j, next, sft);
  }

  /** A digit that starts below bit 8 of byte o belongs to it. */
  lemma Places(o: nat, k: nat)
    requires 5 * (k - 1) - 8 * o < 8
    ensures k <= FirstDigit(o + 1)
  {}

  lemma AllGathered(text: string, o: nat, j: nat, next: byte, sft: int, bits: byte)
    requires o < ByteLength(|text|) && Collected(text, o, j, bits)
    requires InHand(text, o, j, next, sft) && (sft >= 3 || j == 0)
    ensures bits == ByteDue(Digits(text), o)
    ensures Decoding(text, o + 1, j, next, sft - 8)
  {}

  /** One turn of the decoding loop, up to the place where it stores a byte. */
  method NextByte(text: string, i: nat, src: byte, sft: int, ghost o: nat)
      returns (bits: byte, j: nat, next: byte, nextSft: int)
    requires Decoding(text, o, i, src, sft) && o < ByteLength(|text|)
    ensures bits == ByteDue(Digits(text), o)
    ensures Decoding(text, o + 1, j, next, nextSft)
  {
    Leftover(text, o, i, src, sft);
    bits, j, next, nextSft := Shifted(src, sft), i, src, sft;
    while nextSft < 3 && j > 0
      invariant Collected(text, o, j, bits) && InHand(text, o, j, next, nextSft)
    {
      j := j - 1;
      next := DecodeChar(text[j]);
      nextSft := nextSft + 5;
      ghost var below := bits;
      OrOfBytes(bits, Shifted(next, nextSft) % 256);
      bits := Or(bits, Shifted(next, nextSft) % 256);
      NextInPlace(text, o, j, next, nextSft, below, bits);
    }
    AllGathered(text, o, j, next, nextSft, bits);
    nextSft := nextSft - 8;
  }

  /** The decoding loop: from the first byte to the last, the rest of the buffer left alone. */
  method WriteBytes(text: string, out: array<byte>, otot: nat)
    requires otot == ByteLength(|text|) <= out.Length
    modifies out
    ensures out[..otot] == Regrouped(Digits(text))
    ensures out[otot..] == old(out[otot..])
  {
    var sft, src: byte, i: nat := -5, 0, |text|;
    for o := 0 to otot
      invariant Decoding(text, o, i, src, sft)
      invariant forall j :: 0 <= j < o ==> out[j] == ByteDue(Digits(text), j)
      invariant out[otot..] == old(out[otot..])
    {
      var bits;
      bits, i, src, sft := NextByte(text, i, src, sft, o);
      out[o] := bits;
    }
  }

  /** Decoding never fails on account of what the text says: only the sizes are looked at. */
  method Decode(text: string, out: array?<byte>) returns (n: int)
    requires 5 * |text| < 0x8000_0000
    modifies out
    ensures out == null ==> n == ByteLength(|text|)
    ensures out != null && out.Length < ByteLength(|text|) ==>
      n == -1 && forall j :: 0 <= j < out.Length ==> out[j] == 0
    ensures out != null && out.Length >= ByteLength(|text|) ==>
      && n == ByteLength(|text|)
      && out[..n] == Regrouped(Digits(text))
      && (ValidText(text) ==> out[..n] == DecodedBytes(text))
      && forall j :: n <= j < out.Length ==> out[j] == 0
  {
    if out != null {
      Zero(out, 0);
    }
    var btot := |text| * 5;
    var otot := btot / 8;
    if out == null {
      return otot;
    }
    if out.Length < otot {
      return -1;
    }
    WriteBytes(text, out, otot);
    if ValidText(text) {
      RegroupedIsDecoded(text);
    }
    n := otot;
  }
}
