/**
 Time stamps as base-32 text: the eight bytes of a millisecond clock, encoded and stripped of
 leading zeros; read back through a twelve-character buffer that holds seven bytes.
 */
module DateTime {
  import opened Bits
  import opened Base32
  import opened Base32Coder

  const TWO_40 := 0x100_0000_0000
  const TWO_45 := 0x2000_0000_0000
  const TWO_56 := 0x100_0000_0000_0000
  const TWO_60 := 0x1000_0000_0000_0000
  const TWO_63 := 0x8000_0000_0000_0000
  const TWO_64 := 0x1_0000_0000_0000_0000

  type time = t: int | -TWO_63 <= t < TWO_63

  /** The eight bytes of t in memory, as a number: two's complement. */
  function Unsigned(t: time): (v: nat)
    ensures v < TWO_64 && (v - t) % TWO_64 == 0
  {
    if t < 0 then t + TWO_64 else t
  }

  function Stripped(s: string): string {
    if s != "" && s[0] == '0' then Stripped(s[1..]) else s
  }

  function Significant(ds: seq<digit>): seq<digit> {
    if ds != [] && ds[0] == 0 then Significant(ds[1..]) else ds
  }

  function Zeros(n: nat): (s: string)
    ensures |s| == n
  {
    seq(n, _ => '0')
  }

  function StampText(t: time): string {
    Stripped(EncodedText(BytesOf(Unsigned(t), 8)))
  }

  function ReadStamp(s: string): int {
    if |s| > 12 then -2 else LittleEndian(Regrouped(Digits(Zeros(12 - |s|) + s)))
  }

  /** How many base-32 digits a number has; none for zero. */
  function DigitCount(v: nat): nat {
    if v == 0 then 0 else 1 + DigitCount(v / 32)
  }

  lemma {:induction false} CountBounds(v: nat)
    ensures v < Pow2(5 * DigitCount(v))
    ensures v > 0 ==> DigitCount(v) > 0 && Pow2(5 * (DigitCount(v) - 1)) <= v
  {
    if v == 0 {
    } else {
      CountBounds(v / 32);
      Pow2OfFive(5 * DigitCount(v / 32));
      if v / 32 > 0 {
        Pow2OfFive(5 * (DigitCount(v / 32) - 1));
      }
    }
  }

  lemma CountIs(v: nat, n: nat)
    requires v < Pow2(5 * n) && (n > 0 ==> Pow2(5 * (n - 1)) <= v)
    ensures DigitCount(v) == n
  {
    CountBounds(v);
    if v > 0 {
      CountAtMost(v, n, DigitCount(v));
      CountAtMost(v, DigitCount(v), n);
    }
  }

  lemma CountAtMost(v: nat, m: nat, n: nat)
    requires v < Pow2(5 * m) && n > 0 && Pow2(5 * (n - 1)) <= v
    ensures n <= m
  {
    if m < n {
      Pow2Monotone(5 * m, 5 * (n - 1));
    }
  }

  lemma {:induction false} SpelledBelow(ds: seq<digit>)
    ensures Spelled(ds) < Pow2(5 * |ds|)
    ensures ds != [] && ds[0] > 0 ==> Pow2(5 * (|ds| - 1)) <= Spelled(ds)
  {
    if ds == [] {
    } else {
      SpelledBelow(ds[..|ds| - 1]);
      Pow2OfFive(5 * (|ds| - 1));
      if |ds| > 1 {
        Pow2OfFive(5 * (|ds| - 2));
      }
    }
  }

  lemma {:induction false} LeadingZero(ds: seq<byte>)
    requires ds != [] && ds[0] == 0
    ensures Spelled(ds) == Spelled(ds[1..])
  {
    if |ds| == 1 {
    } else {
      LeadingZero(ds[..|ds| - 1]);
      assert ds[1..][..|ds| - 2] == ds[..|ds| - 1][1..];
    }
  }

  /** Stripping leaves exactly the digits the number has. */
  lemma {:induction false} SignificantIs(ds: seq<digit>)
    ensures Significant(ds) == DigitsOf(Spelled(ds), DigitCount(Spelled(ds)))
  {
    if ds != [] && ds[0] == 0 {
      SignificantIs(ds[1..]);
      LeadingZero(ds);
    } else {
      SpelledBelow(ds);
      CountIs(Spelled(ds), |ds|);
      SpelledDigits(ds);
    }
  }

  lemma {:induction false} StrippedText(ds: seq<digit>)
    ensures Stripped(Text(ds)) == Text(Significant(ds))
  {
    if ds == [] {
    } else {
      AlphabetRuns(ds[0]);
      assert Text(ds)[0] == '0' <==> ds[0] == 0;
      if ds[0] == 0 {
        StrippedText(ds[1..]);
        assert Text(ds)[1..] == Text(ds[1..]);
      }
    }
  }

  lemma Pow2Literals()
    ensures Pow2(40) == TWO_40 && Pow2(45) == TWO_45
    ensures Pow2(56) == TWO_56 && Pow2(60) == TWO_60 && Pow2(64) == TWO_64
  {
    assert Pow2(0) == 1;
    Pow2OfEight(0);
    Pow2OfEight(8);
    Pow2OfEight(16);
    Pow2OfEight(24);
    Pow2OfEight(32);
    Pow2OfFive(40);
    Pow2OfEight(40);
    Pow2OfEight(48);
    Pow2OfEight(56);
    Pow2OfFive(50);
    Pow2OfFive(45);
    Pow2OfFive(55);
  }

  /** A stamp is the plain base-32 numeral of the time, with no leading zeros. */
  lemma StampIsNumeral(t: time)
    ensures var v := Unsigned(t); StampText(t) == Text(DigitsOf(v, DigitCount(v)))
  {
    var v := Unsigned(t);
    var ds := DigitsOf(v, 13);
    Pow2Literals();
    BytesOfSmall(v, 8);
    Pow2OfFive(60);
    DigitsSpell(v, 13);
    StrippedText(ds);
    SignificantIs(ds);
  }

  /** What a stamp of each length says about the time; nine characters take 2^40 to 2^45 milliseconds. */
  lemma StampLength(t: time, n: nat)
    ensures (|StampText(t)| == n
      <==> Unsigned(t) < Pow2(5 * n) && (n > 0 ==> Pow2(5 * (n - 1)) <= Unsigned(t)))
    ensures |StampText(t)| == 9 <==> TWO_40 <= Unsigned(t) < TWO_45
  {
    StampIsNumeral(t);
    CountBounds(Unsigned(t));
    Pow2Literals();
    if Unsigned(t) < Pow2(5 * n) && (n > 0 ==> Pow2(5 * (n - 1)) <= Unsigned(t)) {
      CountIs(Unsigned(t), n);
    }
    if TWO_40 <= Unsigned(t) < TWO_45 {
      CountIs(Unsigned(t), 9);
    }
  }

  lemma OneDigitMore(ds: seq<byte>, k: nat, v: nat)
    requires k < |ds| && Spelled(ds[..k]) == v
    ensures Spelled(ds[..k + 1]) == 32 * v + ds[k]
  {
    assert ds[..k + 1][..k] == ds[..k];
  }

  predicate Documented(ds: seq<digit>) {
    && |ds| == 9 && ds[0] == 1 && ds[1] == 7 && ds[2] == 20 && ds[3] == 30 && ds[4] == 27
    && ds[5] == 15 && ds[6] == 5 && ds[7] == 10 && ds[8] == 28
  }

  lemma DocumentedNumber(ds: seq<digit>)
    requires Documented(ds)
    ensures Spelled(ds) == 0x13D_3DB7_955C
  {
    OneDigitMore(ds, 0, 0x0);
    OneDigitMore(ds, 1, 0x1);
    OneDigitMore(ds, 2, 0x27);
    OneDigitMore(ds, 3, 0x4F4);
    OneDigitMore(ds, 4, 0x9E9E);
    OneDigitMore(ds, 5, 0x13D3DB);
    OneDigitMore(ds, 6, 0x27A7B6F);
    OneDigitMore(ds, 7, 0x4F4F6DE5);
    OneDigitMore(ds, 8, 0x9E9EDBCAA);
    assert ds[..9] == ds;
  }

  lemma DocumentedText(ds: seq<digit>)
    requires Documented(ds)
    ensures Text(ds) == "agw84rek6"
  {
    forall j | 0 <= j < 9
      ensures Text(ds)[j] == AlphabetChar(ds[j])
    {
      AlphabetRuns(ds[j]);
    }
  }

  /** A time whose number has these digits, the first of them not zero, is stamped with their text. */
  lemma StampOfDigits(t: time, ds: seq<digit>)
    requires Unsigned(t) == Spelled(ds) && ds != [] && ds[0] != 0
    ensures StampText(t) == Text(ds)
  {
    StampIsNumeral(t);
    NumeralIs(Unsigned(t), ds, |ds|);
  }

  lemma NumeralIs(v: nat, ds: seq<digit>, n: nat)
    requires v == Spelled(ds) && n == |ds| > 0 && ds[0] != 0
    ensures DigitCount(v) == n && DigitsOf(v, n) == ds
  {
    SpelledBelow(ds);
    CountIs(v, n);
    SpelledDigits(ds);
  }

  /** The example worked out where the coder is documented: 0x013d3db7955c is agw84rek6. */
  lemma DocumentedStamp(t: time)
    requires t == 0x13D_3DB7_955C
    ensures StampText(t) == "agw84rek6"
  {
    DocumentedFor(t, [1, 7, 20, 30, 27, 15, 5, 10, 28]);
  }

  lemma DocumentedFor(t: time, ds: seq<digit>)
    requires t == 0x13D_3DB7_955C && Documented(ds)
    ensures StampText(t) == "agw84rek6"
  {
    DocumentedNumber(ds);
    DocumentedText(ds);
    StampOfDigits(t, ds);
  }

  lemma {:induction false} LeadingZeros(ds: seq<byte>, n: nat)
    requires n <= |ds| && forall j :: 0 <= j < n ==> ds[j] == 0
    ensures Spelled(ds) == Spelled(ds[n..])
  {
    if n == 0 {
    } else {
      LeadingZero(ds);
      LeadingZeros(ds[1..], n - 1);
      assert ds[1..][n - 1..] == ds[n..];
    }
  }

  lemma PaddingIsSilent(n: nat, s: string)
    ensures Spelled(Digits(Zeros(n) + s)) == Spelled(Digits(s))
  {
    var ds := Digits(Zeros(n) + s);
    LeadingZeros(ds, n);
    assert ds[n..] == Digits(s);
  }

  /** Reading valid text of at most twelve characters gives its number, less what exceeds seven bytes. */
  lemma ReadIsNumber(s: string)
    requires ValidText(s) && |s| <= 12
    ensures ReadStamp(s) == Spelled(Digits(s)) % Pow2(56)
  {
    PaddingIsSilent(12 - |s|, s);
    ReadIsRemainder(Zeros(12 - |s|) + s, 12, 56);
  }

  lemma ReadIsRemainder(s: string, n: nat, bits: nat)
    requires ValidText(s) && |s| == n && 8 * ByteLength(n) == bits
    ensures LittleEndian(Regrouped(Digits(s))) == Spelled(Digits(s)) % Pow2(bits)
  {
    RegroupedIsDecoded(s);
    DecodedIsRemainder(s);
  }

  /** What is read back, for every time there is. */
  lemma ReadOfStamp(t: time)
    ensures ReadStamp(StampText(t)) == if Unsigned(t) >= TWO_60 then -2 else Unsigned(t) % TWO_56
  {
    var v := Unsigned(t);
    var ds := DigitsOf(v, DigitCount(v));
    StampIsNumeral(t);
    CountBounds(v);
    Pow2Literals();
    if v < TWO_60 {
      if DigitCount(v) > 12 { Pow2Monotone(60, 5 * (DigitCount(v) - 1)); }
      DigitsSpell(v, DigitCount(v));
      TextDigits(ds);
      ReadIsNumber(StampText(t));
    } else if DigitCount(v) <= 12 {
      Pow2Monotone(5 * DigitCount(v), 60);
    }
  }

  /**
   A stamp reads back as the time it was made from exactly below 2^56 milliseconds: longer
   ones lose their high byte or are refused. The error code itself is the one other time
   that happens to survive, being what refusing it answers.
   */
  lemma StampRoundTrip(t: time)
    ensures ReadStamp(StampText(t)) == t <==> 0 <= t < TWO_56 || t == -2
  {
    ReadOfStamp(t);
    if 0 <= t < TWO_60 {
      Remainder56(t);
    }
  }

  lemma Remainder56(v: nat)
    ensures 0 <= v % TWO_56 < TWO_56
    ensures v < TWO_56 ==> v % TWO_56 == v
  {}

  lemma StrippedCanonical(s: string)
    requires ValidText(s)
    ensures Stripped(Canonical(s)) == Text(Significant(Digits(s)))
  {
    CanonicalDigits(s);
    StrippedText(Digits(s));
  }

  lemma ShortTextIsSmall(s: string)
    requires ValidText(s) && |s| <= 11
    ensures Spelled(Digits(s)) < TWO_56 && ReadStamp(s) == Spelled(Digits(s))
  {
    CanonicalDigits(s);
    SpelledBelow(Digits(s));
    Pow2Literals();
    Pow2Monotone(5 * |s|, 56);
    ReadIsNumber(s);
    Remainder56(Spelled(Digits(s)));
  }

  lemma NumeralIsStripped(s: string)
    requires ValidText(s)
    ensures var v := Spelled(Digits(s)); Text(DigitsOf(v, DigitCount(v))) == Stripped(Canonical(s))
  {
    StrippedCanonical(s);
    SignificantIs(Digits(s));
  }

  /** Text of up to eleven characters, printed again, is itself in canonical letters without leading zeros. */
  lemma StampOfRead(s: string)
    requires ValidText(s) && |s| <= 11
    ensures 0 <= ReadStamp(s) < TWO_56
    ensures StampText(ReadStamp(s)) == Stripped(Canonical(s))
  {
    ShortTextIsSmall(s);
    StampIsNumeral(ReadStamp(s));
    NumeralIsStripped(s);
  }

  // The two wrappers

  lemma {:induction false} StrippedFrom(s: string, i: nat)
    requires i <= |s| && (forall j :: 0 <= j < i ==> s[j] == '0') && (i < |s| ==> s[i] != '0')
    ensures Stripped(s) == s[i..]
  {
    if i == 0 {
    } else {
      StrippedFrom(s[1..], i - 1);
      assert s[1..][i - 1..] == s[i..];
    }
  }

  /** The clock's eight bytes as text, before stripping. */
  function FullText(t: time): (s: string)
    ensures |s| == 13
  {
    EncodedText(BytesOf(Unsigned(t), 8))
  }

  /** The overlapping copy of everything from i on to the start of the buffer. */
  method MoveDown(buf: array<char>, i: nat)
    requires i <= buf.Length
    modifies buf
    ensures buf[..] == old(buf[i..]) + old(buf[buf.Length - i..])
  {
    forall j | 0 <= j < buf.Length - i {
      buf[j] := buf[i + j];
    }
  }

  /**
   Stripping moves the whole buffer down over the zeros and leaves its old end behind; i is how
   far. All zeros with nothing after them stay where they are.
   */
  method StripInPlace(out: array<char>) returns (i: nat)
    modifies out
    ensures Stripped(old(out[..])) == "" ==> i == 0 && out[..] == old(out[..])
    ensures Stripped(old(out[..])) != "" ==>
      && i == out.Length - |Stripped(old(out[..]))| >= 0
      && out[..] == Stripped(old(out[..])) + old(out[out.Length - i..])
  {
    i := 0;
    while i < out.Length && out[i] == '0'
      invariant i <= out.Length && forall j :: 0 <= j < i ==> out[j] == '0'
    {
      i := i + 1;
    }
    StrippedFrom(out[..], i);
    if i == out.Length {
      return 0;
    }
    if i != 0 {
      MoveDown(out, i);
    }
  }

  lemma {:induction false} StrippedPrefix(s: string, rest: string)
    requires rest != "" && rest[0] != '0'
    ensures Stripped(s + rest) == Stripped(s) + rest
  {
    if s == "" || s[0] != '0' {
      assert s == "" ==> s + rest == rest;
    } else {
      StrippedPrefix(s[1..], rest);
      assert (s + rest)[1..] == s[1..] + rest;
    }
  }

  lemma {:induction false} StrippedIsShorter(s: string)
    ensures |Stripped(s)| <= |s|
  {
    if s == "" {
    } else {
      StrippedIsShorter(s[1..]);
    }
  }

  function Nuls(n: nat): (s: string)
    ensures |s| == n
  {
    seq(n, _ => '\0')
  }

  /** The buffer once stamped: the stamp, what followed the text, and the end the move left behind. */
  function Stamped(t: time, size: nat): (s: string)
    requires size >= 13
    ensures |s| == size
  {
    var whole := FullText(t) + Nuls(size - 13);
    StrippedIsShorter(FullText(t));
    var n := |StampText(t)|;
    StampText(t) + Nuls(size - 13) + whole[size - (13 - n)..]
  }

  /** With no room for a terminator a stamp of zero is not stripped, there being nothing after its zeros. */
  method EncodeDatetime(t: time, out: array?<char>) returns (n: int)
    modifies out
    ensures out == null ==> n == 13
    ensures out != null && out.Length < 13 ==>
      n == -1 && forall j :: 0 <= j < out.Length ==> out[j] == '\0'
    ensures out != null && out.Length == 13 && StampText(t) == "" ==> n == 13 && out[..] == FullText(t)
    ensures out != null && out.Length >= 13 && (out.Length > 13 || StampText(t) != "") ==>
      n == |StampText(t)| && out[..] == Stamped(t, out.Length)
  {
    n := Encode(BytesOf(Unsigned(t), 8), out);
    if n < 0 || out == null {
      return;
    }
    assert out[..] == FullText(t) + Nuls(out.Length - 13);
    StrippedWhole(t, out.Length);
    var i := StripInPlace(out);
    n := n - i;
  }

  lemma StrippedWhole(t: time, size: nat)
    requires size >= 13
    ensures |StampText(t)| <= 13
    ensures Stripped(FullText(t) + Nuls(size - 13)) == StampText(t) + Nuls(size - 13)
  {
    StrippedIsShorter(FullText(t));
    if size == 13 {
      assert FullText(t) + Nuls(0) == FullText(t) && StampText(t) + Nuls(0) == StampText(t);
    } else {
      StrippedPrefix(FullText(t), Nuls(size - 13));
    }
  }

  function CString(s: string): string {
    if s == "" || s[0] == '\0' then "" else [s[0]] + CString(s[1..])
  }

  lemma {:induction false} ShorterString(s: string)
    ensures |CString(s)| <= |s| && CString(s) == s[..|CString(s)|]
  {
    if s == "" {
    } else {
      ShorterString(s[1..]);
    }
  }

  lemma {:induction false} TopByteZero(bs: seq<byte>)
    ensures LittleEndian(bs + [0]) == LittleEndian(bs)
  {
    if bs == [] {
    } else {
      TopByteZero(bs[1..]);
      assert (bs + [0])[1..] == bs[1..] + [0];
    }
  }

  /** A length of zero means: up to the terminator. */
  method DecodeDatetime(encoded: string, encodedLen: nat) returns (r: int)
    requires encodedLen <= |encoded| && (encodedLen == 0 ==> '\0' in encoded)
    ensures r == ReadStamp(if encodedLen == 0 then CString(encoded) else encoded[..encodedLen])
  {
    ShorterString(encoded);
    var enclen := if encodedLen == 0 then |CString(encoded)| else encodedLen;
    if enclen > 12 {
      return -2;
    }
    var pad := 12 - enclen;
    var buf := Zeros(pad) + encoded[..enclen];
    var datetime := new byte[8];
    var rc := Decode(buf, datetime);
    assert datetime[..] == datetime[..7] + [0];
    TopByteZero(datetime[..7]);
    r := LittleEndian(datetime[..]);
  }

  lemma {:induction false} TerminatedAt(s: string, n: nat)
    requires n < |s| && s[n] == '\0' && forall j :: 0 <= j < n ==> s[j] != '\0'
    ensures CString(s) == s[..n]
  {
    if n == 0 {
    } else {
      TerminatedAt(s[1..], n - 1);
      assert [s[0]] + s[1..][..n - 1] == s[..n];
    }
  }

  lemma StampHasNoTerminator(t: time)
    ensures forall j :: 0 <= j < |StampText(t)| ==> StampText(t)[j] != '\0'
  {
    StampIsNumeral(t);
    var v := Unsigned(t);
    TextDigits(DigitsOf(v, DigitCount(v)));
    forall j | 0 <= j < |StampText(t)|
      ensures StampText(t)[j] != '\0'
    {
      assert ValidChar(StampText(t)[j]);
    }
  }

  /** With room for a terminator, what is read up to it is the stamp. */
  lemma StampedReads(t: time, size: nat)
    requires size >= 14
    ensures '\0' in Stamped(t, size) && CString(Stamped(t, size)) == StampText(t)
  {
    var s, n := Stamped(t, size), |StampText(t)|;
    StrippedWhole(t, size);
    StampHasNoTerminator(t);
    assert s[n] == '\0';
    assert s[..n] == StampText(t);
    forall j | 0 <= j < n ensures s[j] != '\0' { assert s[j] == StampText(t)[j]; }
    TerminatedAt(s, n);
  }

  /** Through the buffers: a time written with room for a terminator and read up to it. */
  method WriteThenRead(t: time, out: array<char>) returns (r: int)
    requires out.Length >= 14
    modifies out
    ensures r == t <==> 0 <= t < TWO_56 || t == -2
  {
    var n := EncodeDatetime(t, out);
    StampedReads(t, out.Length);
    StampRoundTrip(t);
    r := DecodeDatetime(out[..], 0);
  }
}
