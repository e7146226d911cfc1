/**
 The base-32 text of a byte string: the little-endian number the bytes spell, written most
 significant digit first in an alphabet that leaves out i, l, o and 5. It is not the encoding
 of RFC 4648: alphabet, direction and padding all differ.
 */
module Base32 {
  import opened Bits

  const ALPHABET := "0abcdefghjkmnpqrstuvwxyz12346789"

  type digit = n: nat | n < 32

  /** What decoding a character the alphabet does not know yields. It is not reported. */
  const BAD_CHAR: byte := 0xFF

  function DecodeChar(c: char): byte {
    if 'A' <= c <= 'H' then c as nat - 'A' as nat + 1
    else if 'a' <= c <= 'h' then c as nat - 'a' as nat + 1
    else if c == 'J' || c == 'K' then c as nat - 'J' as nat + 9
    else if c == 'j' || c == 'k' then c as nat - 'j' as nat + 9
    else if c == 'M' || c == 'N' then c as nat - 'M' as nat + 11
    else if c == 'm' || c == 'n' then c as nat - 'm' as nat + 11
    else if 'P' <= c <= 'Z' then c as nat - 'P' as nat + 13
    else if 'p' <= c <= 'z' then c as nat - 'p' as nat + 13
    else if c == '0' || c == 'O' || c == 'o' then 0
    else if c == '1' || c == 'I' || c == 'i' || c == 'L' || c == 'l' then 24
    else if '2' <= c <= '4' then c as nat - '2' as nat + 25
    else if c == '5' then 16  // 5 = s
    else if '6' <= c <= '9' then c as nat - '6' as nat + 28
    else BAD_CHAR
  }

  predicate ValidChar(c: char) {
    DecodeChar(c) < 32
  }

  /** The character the alphabet uses for what c stands for: lower case, 0 for o, 1 for i and l, s for 5. */
  function CanonicalChar(c: char): char {
    if c == 'O' || c == 'o' then '0'
    else if c == 'I' || c == 'i' || c == 'L' || c == 'l' then '1'
    else if c == '5' then 's'
    else if 'A' <= c <= 'Z' then (c as nat + 32) as char
    else c
  }

  /** The alphabet as the runs it is made of. */
  function AlphabetChar(d: digit): char {
    if d == 0 then '0'
    else if d <= 8 then (d + 96) as char
    else if d <= 10 then (d + 97) as char
    else if d <= 12 then (d + 98) as char
    else if d <= 23 then (d + 99) as char
    else if d <= 27 then (d + 25) as char
    else (d + 26) as char
  }

  lemma AlphabetRuns(d: digit)
    ensures ALPHABET[d] == AlphabetChar(d)
  {}

  lemma CharsRoundTrip(d: digit)
    ensures DecodeChar(ALPHABET[d]) == d
  {
    AlphabetRuns(d);
    RunsRoundTrip(d);
  }

  lemma RunsRoundTrip(d: digit)
    ensures DecodeChar(AlphabetChar(d)) == d
  {}

  lemma CanonicalIsReencoded(c: char)
    ensures ValidChar(c) <==> '0' <= c <= '9' || 'A' <= c <= 'Z' || 'a' <= c <= 'z'
    ensures ValidChar(c) ==> ALPHABET[DecodeChar(c)] == CanonicalChar(c)
    ensures !ValidChar(c) ==> DecodeChar(c) == 0xFF
  {
    if ValidChar(c) {
      AlphabetRuns(DecodeChar(c));
      if '0' <= c <= '9' {
      } else if 'A' <= c <= 'Z' {
        UpperIsReencoded(c);
      } else {
        LowerIsReencoded(c);
      }
    }
  }

  lemma UpperIsReencoded(c: char)
    requires 'A' <= c <= 'Z'
    ensures AlphabetChar(DecodeChar(c)) == CanonicalChar(c)
  {}

  lemma LowerIsReencoded(c: char)
    requires 'a' <= c <= 'z'
    ensures AlphabetChar(DecodeChar(c)) == CanonicalChar(c)
  {}

  /** Zero first, then the letters but i, l and o in order, then the other digits but 5 in order. This leaves nothing
      open: there are 23 such letters for the places 1 to 23, and 8 such digits for 24 to 31. */
  lemma AlphabetIsOrdered(d: nat, e: nat)
    requires d < e < 32
    ensures ALPHABET[0] == '0' && |ALPHABET| == 32
    ensures 1 <= e <= 23 ==> 'a' <= ALPHABET[e] <= 'z' && ALPHABET[e] != 'i' && ALPHABET[e] != 'l' && ALPHABET[e] != 'o'
    ensures 24 <= e ==> '1' <= ALPHABET[e] <= '9' && ALPHABET[e] != '5'
    ensures 1 <= d && e <= 23 ==> ALPHABET[d] < ALPHABET[e]
    ensures 24 <= d ==> ALPHABET[d] < ALPHABET[e]
  {
    AlphabetRuns(d);
    AlphabetRuns(e);
    RunsAreOrdered(d, e);
  }

  lemma RunsAreOrdered(d: digit, e: digit)
    requires d < e
    ensures 1 <= e <= 23 ==> 'a' <= AlphabetChar(e) <= 'z'
    ensures 1 <= e <= 23 ==> AlphabetChar(e) != 'i' && AlphabetChar(e) != 'l' && AlphabetChar(e) != 'o'
    ensures 24 <= e ==> '1' <= AlphabetChar(e) <= '9' && AlphabetChar(e) != '5'
    ensures 1 <= d && e <= 23 ==> AlphabetChar(d) < AlphabetChar(e)
    ensures 24 <= d ==> AlphabetChar(d) < AlphabetChar(e)
  {}

  /** The number a string of bytes is, least significant byte first. */
  function LittleEndian(bs: seq<byte>): nat {
    if bs == [] then 0 else bs[0] + 256 * LittleEndian(bs[1..])
  }

  /** The number base-32 digits spell, most significant digit first. */
  function Spelled(ds: seq<byte>): nat {
    if ds == [] then 0 else 32 * Spelled(ds[..|ds| - 1]) + ds[|ds| - 1]
  }

  /** The last t base-32 digits of v, most significant first. */
  function DigitsOf(v: nat, t: nat): (ds: seq<digit>)
    ensures |ds| == t
    decreases t
  {
    if t == 0 then [] else DigitsOf(v / 32, t - 1) + [v % 32]
  }

  /** The low n bytes of v, least significant first. */
  function BytesOf(v: nat, n: nat): (bs: seq<byte>)
    ensures |bs| == n
    decreases n
  {
    if n == 0 then [] else [v % 256] + BytesOf(v / 256, n - 1)
  }

  function Text(ds: seq<digit>): (s: string)
    ensures |s| == |ds|
  {
    seq(|ds|, j requires 0 <= j < |ds| => ALPHABET[ds[j]])
  }

  function Digits(s: string): (ds: seq<byte>)
    ensures |ds| == |s|
  {
    seq(|s|, j requires 0 <= j < |s| => DecodeChar(s[j]))
  }

  function Canonical(s: string): (r: string)
    ensures |r| == |s|
  {
    seq(|s|, j requires 0 <= j < |s| => CanonicalChar(s[j]))
  }

  ghost predicate ValidText(s: string) {
    forall j :: 0 <= j < |s| ==> ValidChar(s[j])
  }

  /** How many characters n bytes take: one for every five bits begun. */
  function TextLength(n: nat): nat {
    8 * n / 5 + if 8 * n % 5 == 0 then 0 else 1
  }

  /** How many whole bytes m characters hold. */
  function ByteLength(m: nat): nat {
    5 * m / 8
  }

  function EncodedText(bs: seq<byte>): string {
    Text(DigitsOf(LittleEndian(bs), TextLength(|bs|)))
  }

  /** The bytes a text of valid characters stands for; bits that do not fill a byte are dropped. */
  function DecodedBytes(s: string): seq<byte> {
    BytesOf(Spelled(Digits(s)), ByteLength(|s|))
  }

  lemma LengthsMatch(n: nat)
    ensures ByteLength(TextLength(n)) == n
  {}

  /** Only lengths that leave 0, 2, 4, 5 or 7 characters over whole groups of eight come from encoding. */
  lemma LengthsOfEncodings(m: nat)
    ensures TextLength(ByteLength(m)) == m <==> m % 8 !in {1, 3, 6}
  {
    var q, r := m / 8, m % 8;
    WholeGroups(q, r);
    GroupLeftOver(r);
  }

  lemma WholeGroups(q: nat, r: nat)
    requires r < 8
    ensures ByteLength(8 * q + r) == 5 * q + ByteLength(r)
    ensures TextLength(5 * q + ByteLength(r)) == 8 * q + TextLength(ByteLength(r))
  {}

  lemma GroupLeftOver(r: nat)
    requires r < 8
    ensures TextLength(ByteLength(r)) == r <==> r !in {1, 3, 6}
  {
    if r == 0 {} else if r == 1 {} else if r == 2 {} else if r == 3 {}
    else if r == 4 {} else if r == 5 {} else if r == 6 {} else {}
  }

  lemma {:induction false} LittleEndianBelow(bs: seq<byte>)
    ensures LittleEndian(bs) < Pow2(8 * |bs|)
  {
    if bs == [] {
    } else {
      LittleEndianBelow(bs[1..]);
      Pow2OfEight(8 * (|bs| - 1));
    }
  }

  lemma Pow2OfFive(n: nat)
    ensures Pow2(n + 5) == 32 * Pow2(n)
  {
    assert Pow2(n + 5) == 2 * Pow2(n + 4) && Pow2(n + 4) == 2 * Pow2(n + 3);
    assert Pow2(n + 3) == 2 * Pow2(n + 2) && Pow2(n + 2) == 2 * Pow2(n + 1);
  }

  lemma Pow2OfEight(n: nat)
    ensures Pow2(n + 8) == 256 * Pow2(n)
  {
    Pow2OfFive(n);
    assert Pow2(n + 8) == 2 * Pow2(n + 7) && Pow2(n + 7) == 2 * Pow2(n + 6) && Pow2(n + 6) == 2 * Pow2(n + 5);
  }

  /** Digits and number determine each other as long as the number has no more digits than that. */
  lemma {:induction false} DigitsSpell(v: nat, t: nat)
    requires v < Pow2(5 * t)
    ensures Spelled(DigitsOf(v, t)) == v
    decreases t
  {
    if t == 0 {
    } else {
      Pow2OfFive(5 * (t - 1));
      DigitsSpell(v / 32, t - 1);
      assert DigitsOf(v, t)[..t - 1] == DigitsOf(v / 32, t - 1);
    }
  }

  lemma {:induction false} SpelledDigits(ds: seq<byte>)
    requires forall j :: 0 <= j < |ds| ==> ds[j] < 32
    ensures DigitsOf(Spelled(ds), |ds|) == ds
  {
    if ds == [] {
    } else {
      var rest, last := ds[..|ds| - 1], ds[|ds| - 1];
      SpelledDigits(rest);
      assert Spelled(ds) / 32 == Spelled(rest) && Spelled(ds) % 32 == last;
      assert ds == rest + [last];
    }
  }

  lemma {:induction false} BytesOfLittleEndian(bs: seq<byte>)
    ensures BytesOf(LittleEndian(bs), |bs|) == bs
  {
    if bs == [] {
    } else {
      BytesOfLittleEndian(bs[1..]);
      assert LittleEndian(bs) / 256 == LittleEndian(bs[1..]) && LittleEndian(bs) % 256 == bs[0];
    }
  }

  /** Keeping n bytes of a number is the number modulo 256 to the n. */
  lemma {:induction false} BytesOfIsRemainder(v: nat, n: nat) returns (dropped: nat)
    ensures v == Pow2(8 * n) * dropped + LittleEndian(BytesOf(v, n))
    decreases n
  {
    if n == 0 {
      dropped := v;
    } else {
      dropped := BytesOfIsRemainder(v / 256, n - 1);
      assert BytesOf(v, n)[1..] == BytesOf(v / 256, n - 1);
      OneByteMore(v, n, Pow2(8 * (n - 1)), dropped, LittleEndian(BytesOf(v / 256, n - 1)));
    }
  }

  lemma OneByteMore(v: nat, n: nat, p: nat, dropped: nat, low: nat)
    requires n > 0 && p == Pow2(8 * (n - 1)) && v / 256 == p * dropped + low
    ensures v == Pow2(8 * n) * dropped + (v % 256 + 256 * low)
  {
    Pow2OfEight(8 * (n - 1));
    assert 256 * (p * dropped) == (256 * p) * dropped;
  }

  lemma {:induction false} BytesOfSmall(v: nat, n: nat)
    requires v < Pow2(8 * n)
    ensures LittleEndian(BytesOf(v, n)) == v
    decreases n
  {
    if n == 0 {
    } else {
      Pow2OfEight(8 * (n - 1));
      BytesOfSmall(v / 256, n - 1);
      assert BytesOf(v, n)[1..] == BytesOf(v / 256, n - 1);
    }
  }

  lemma TextDigits(ds: seq<digit>)
    ensures Digits(Text(ds)) == ds && ValidText(Text(ds))
  {
    forall j | 0 <= j < |ds|
      ensures Digits(Text(ds))[j] == ds[j] && ValidChar(Text(ds)[j])
    {
      CharsRoundTrip(ds[j]);
    }
  }

  /**
   An encoding is valid text of the length due that spells, most significant digit first, the
   little-endian number of the bytes; and no other text in the alphabet does.
   */
  lemma EncodedTextSpells(bs: seq<byte>)
    ensures var s := EncodedText(bs);
      |s| == TextLength(|bs|) && ValidText(s) && Spelled(Digits(s)) == LittleEndian(bs)
  {
    var v, t := LittleEndian(bs), TextLength(|bs|);
    LittleEndianBelow(bs);
    Pow2Monotone(8 * |bs|, 5 * t);
    DigitsSpell(v, t);
    TextDigits(DigitsOf(v, t));
  }

  lemma SpellingIsUnique(s: string, bs: seq<byte>)
    requires ValidText(s) && |s| == TextLength(|bs|) && Spelled(Digits(s)) == LittleEndian(bs)
    ensures EncodedText(bs) == Canonical(s)
  {
    SpelledDigits(Digits(s));
    CanonicalDigits(s);
  }

  lemma CanonicalDigits(s: string)
    requires ValidText(s)
    ensures forall j :: 0 <= j < |s| ==> Digits(s)[j] < 32
    ensures Text(Digits(s)) == Canonical(s)
  {
    forall j | 0 <= j < |s|
      ensures Digits(s)[j] < 32 && ALPHABET[Digits(s)[j]] == CanonicalChar(s[j])
    {
      assert ValidChar(s[j]);
      CanonicalIsReencoded(s[j]);
    }
  }

  /** Decoding what was encoded gives the bytes back, as many as there were. */
  lemma DecodeOfEncode(bs: seq<byte>)
    ensures DecodedBytes(EncodedText(bs)) == bs
  {
    EncodedTextSpells(bs);
    LengthsMatch(|bs|);
    BytesOfLittleEndian(bs);
  }

  /** The little-endian number of the decoded bytes is the number spelled, less the bits that fill no byte. */
  lemma DecodedIsRemainder(s: string)
    ensures |DecodedBytes(s)| == ByteLength(|s|)
    ensures LittleEndian(DecodedBytes(s)) == Spelled(Digits(s)) % Pow2(8 * ByteLength(|s|))
  {
    var n := ByteLength(|s|);
    var dropped := BytesOfIsRemainder(Spelled(Digits(s)), n);
    LittleEndianBelow(DecodedBytes(s));
    RemainderIs(Pow2(8 * n), dropped, LittleEndian(DecodedBytes(s)));
  }

  lemma RemainderIs(p: nat, q: nat, r: nat)
    requires r < p
    ensures (p * q + r) % p == r
  {
    var x := p * q + r;
    QuotientIs(p, q, r, x / p, x % p);
  }

  lemma QuotientIs(p: nat, q: nat, r: nat, q1: nat, r1: nat)
    requires r < p && r1 < p && p * q + r == p * q1 + r1
    ensures r == r1
  {
    assert p * (q - q1) == r1 - r;
    assert p * (q1 - q) == r - r1;
    if q > q1 {
      MultipleIsLarge(p, q - q1);
    } else if q < q1 {
      MultipleIsLarge(p, q1 - q);
    }
  }

  lemma MultipleIsLarge(p: nat, k: nat)
    requires k > 0
    ensures p * k >= p
  {
    assert p * k == p * (k - 1) + p;
  }

  /**
   Encoding what was decoded gives the text back, in its canonical letters, exactly when the
   text has a length encodings have and its bits beyond the last whole byte are zero.
   */
  lemma EncodeOfDecode(s: string)
    requires ValidText(s)
    ensures (EncodedText(DecodedBytes(s)) == Canonical(s)
      <==> |s| % 8 !in {1, 3, 6} && Spelled(Digits(s)) < Pow2(8 * ByteLength(|s|)))
  {
    var v, n, bs := Spelled(Digits(s)), ByteLength(|s|), DecodedBytes(s);
    LengthsOfEncodings(|s|);
    EncodedTextSpells(bs);
    LittleEndianBelow(bs);
    CanonicalKeepsDigits(s);
    if v < Pow2(8 * n) && TextLength(n) == |s| {
      BytesOfSmall(v, n);
      SpellingIsUnique(s, bs);
    }
  }

  lemma CanonicalKeepsDigits(s: string)
    requires ValidText(s)
    ensures Digits(Canonical(s)) == Digits(s)
  {
    CanonicalDigits(s);
    TextDigits(Digits(s));
  }
}
