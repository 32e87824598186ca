/**
 * `encoding.rs`: the segment encoders, the header, the terminator and pad
 * codewords, and `create_bits`, which runs them over one `Bytes` stream.
 *
 * Each encoder is specified by the bit sequence it appends (a pure function
 * of the input), and each such function has a decoder that reads the input
 * back, following sections 7.4.3 to 7.4.5, 7.4.9 and 7.4.10 of
 * ISO/IEC 18004:2015.
 */
module Encoding {
  import opened Packing
  import opened Wrappers
  import opened ByteStream
  import Qr

  // ---------------------------------------------------------------------
  // Count indicator widths (Table 3 of ISO/IEC 18004:2015).

  /** `count_bits_count`: the width of the character count field. */
  function CountBits(v: Qr.Version, mode: Qr.EncodingMode): (r: nat)
    ensures 8 <= r <= 16
  {
    if v <= 9 then
      match mode
      case Numeric => 10
      case Alphanumeric => 9
      case Byte => 8
    else if v <= 26 then
      match mode
      case Numeric => 12
      case Alphanumeric => 11
      case Byte => 16
    else
      match mode
      case Numeric => 14
      case Alphanumeric => 13
      case Byte => 16
  }

  /** A larger version never has a narrower count field. */
  lemma CountBitsGrow(v: Qr.Version, u: Qr.Version, mode: Qr.EncodingMode)
    requires v <= u
    ensures CountBits(v, mode) <= CountBits(u, mode)
  {
  }

  // ---------------------------------------------------------------------
  // The alphanumeric alphabet (Table 5 of ISO/IEC 18004:2015).

  const Digits: string := "0123456789"
  const Letters: string := "ABCDEFGHIJKLMNOPQRSTUVWXYZ"
  const Marks: string := " $%*+-./:"

  /** The 45 symbols in the order of their values. */
  const Alphabet: string := Digits + Letters + Marks

  /** `byte_to_alphanumeric`: the symbol value of a byte; a byte outside the alphabet gives 0. */
  function ByteToAlphanumeric(b: Byte): (r: nat)
    ensures r < 45
    ensures !Qr.IsAlphanumeric(b) ==> r == 0
  {
    if '0' as int <= b <= '9' as int then b - '0' as int
    else if 'A' as int <= b <= 'Z' as int then b - 'A' as int + 10
    else if b == ' ' as int then 36
    else if b == '$' as int then 37
    else if b == '%' as int then 38
    else if b == '*' as int then 39
    else if b == '+' as int then 40
    else if b == '-' as int then 41
    else if b == '.' as int then 42
    else if b == '/' as int then 43
    else if b == ':' as int then 44
    else 0
  }

  /** The byte of symbol value `v`. */
  function Symbol(v: nat): (r: Byte)
    requires v < 45
  {
    if v < 10 then '0' as int + v
    else if v < 36 then 'A' as int + (v - 10)
    else if v == 36 then ' ' as int
    else if v == 37 then '$' as int
    else if v == 38 then '%' as int
    else if v == 39 then '*' as int
    else if v == 40 then '+' as int
    else if v == 41 then '-' as int
    else if v == 42 then '.' as int
    else if v == 43 then '/' as int
    else ':' as int
  }

  /** The alphabet, in table order: the symbol of value `v` is the `v`-th character. */
  lemma SymbolIsAlphabet(v: nat)
    requires v < 45
    ensures Symbol(v) == Alphabet[v] as int
  {
    if v < 10 {
      SymbolIsDigit(v);
    } else if v < 36 {
      SymbolIsLetter(v);
    } else {
      SymbolIsMark(v);
    }
  }

  lemma SymbolIsDigit(v: nat)
    requires v < 10
    ensures Symbol(v) == Alphabet[v] as int
  {
  }

  lemma SymbolIsLetter(v: nat)
    requires 10 <= v < 36
    ensures Symbol(v) == Alphabet[v] as int
  {
  }

  lemma SymbolIsMark(v: nat)
    requires 36 <= v < 45
    ensures Symbol(v) == Alphabet[v] as int
  {
  }

  /** Every symbol value names exactly one alphanumeric byte, which maps back to that value. */
  lemma SymbolRoundTrip(v: nat)
    requires v < 45
    ensures Qr.IsAlphanumeric(Symbol(v)) && ByteToAlphanumeric(Symbol(v)) == v
    ensures forall b: Byte :: Qr.IsAlphanumeric(b) && ByteToAlphanumeric(b) == v ==> b == Symbol(v)
  {
    forall b: Byte | Qr.IsAlphanumeric(b) && ByteToAlphanumeric(b) == v
      ensures b == Symbol(v)
    {
      SymbolOfByte(b);
    }
  }

  /** Every alphanumeric byte is the symbol of its value. */
  lemma SymbolOfByte(b: Byte)
    requires Qr.IsAlphanumeric(b)
    ensures Symbol(ByteToAlphanumeric(b)) == b
  {
  }

  /** So the mapping is one-to-one on the 45 alphanumeric bytes. */
  lemma ByteToAlphanumericInjective(a: Byte, b: Byte)
    requires Qr.IsAlphanumeric(a) && Qr.IsAlphanumeric(b)
    requires ByteToAlphanumeric(a) == ByteToAlphanumeric(b)
    ensures a == b
  {
    SymbolOfByte(a);
    SymbolOfByte(b);
  }

  /** The values of the alphabet's characters are their positions, 0 to 44. */
  lemma AlphabetOrder(i: nat)
    requires i < 45
    ensures Alphabet[i] as int < 256 && ByteToAlphanumeric(Alphabet[i] as int) == i
  {
    SymbolIsAlphabet(i);
    SymbolRoundTrip(i);
  }

  /** The symbol a decoder reads from a value; a value past the alphabet reads as 0. */
  function SymbolOf(v: nat): (r: Byte)
  {
    if v < 45 then Symbol(v) else 0
  }

  // ---------------------------------------------------------------------
  // Numeric segments (section 7.4.3 of ISO/IEC 18004:2015).

  predicate AllDigits(s: seq<Byte>)
  {
    forall i :: 0 <= i < |s| ==> Qr.IsDigit(s[i])
  }

  /** `b - b'0'` on a digit. */
  function Digit(b: Byte): (r: nat)
    requires Qr.IsDigit(b)
    ensures r < 10
  {
    b - '0' as int
  }

  /** The number a run of digits spells in decimal. */
  function Decimal(c: seq<Byte>): (r: nat)
    requires AllDigits(c)
  {
    if c == [] then 0 else 10 * Decimal(c[..|c| - 1]) + Digit(c[|c| - 1])
  }

  /** The `fold((0, 1), |(acc, w), b| (acc * 10 + b, w + 3))` of `encode_numeric`. */
  function FoldNumeric(c: seq<Byte>, acc: nat, w: nat): (r: (nat, nat))
    requires AllDigits(c)
    decreases |c|
  {
    if c == [] then (acc, w) else FoldNumeric(c[1..], acc * 10 + Digit(c[0]), w + 3)
  }

  /**
   * One group of `chunks(3)`: up to three digits give their decimal value
   * in 4, 7 or 10 bits.
   */
  function NumericGroup(c: seq<Byte>): (r: (nat, nat))
    requires 1 <= |c| <= 3 && AllDigits(c)
    ensures r.0 == Decimal(c) && r.1 == 3 * |c| + 1
    ensures 1 <= r.1 <= 16 && r.0 < Pow2(r.1)
  {
    NumericGroupFold(c);
    Pow2Widths();
    FoldNumeric(c, 0, 1)
  }

  /** The fold over at most three digits computes their decimal value. */
  lemma NumericGroupFold(c: seq<Byte>)
    requires 1 <= |c| <= 3 && AllDigits(c)
    ensures FoldNumeric(c, 0, 1) == (Decimal(c), 3 * |c| + 1)
    ensures Decimal(c) < if |c| == 1 then 10 else if |c| == 2 then 100 else 1000
  {
    var d0 := Digit(c[0]);
    assert Decimal(c[..1]) == d0 by {
      assert c[..1][..0] == [];
    }
    if |c| == 1 {
      assert c[..1] == c;
    } else {
      var d1 := Digit(c[1]);
      assert c[..2][..1] == c[..1];
      assert Decimal(c[..2]) == 10 * d0 + d1;
      if |c| == 2 {
        assert c[..2] == c;
        FoldNumericTwo(c, d0, d1);
      } else {
        FoldNumericThree(c, d0, d1, Digit(c[2]));
      }
    }
  }

  lemma FoldNumericTwo(c: seq<Byte>, d0: nat, d1: nat)
    requires |c| == 2 && AllDigits(c) && d0 == Digit(c[0]) && d1 == Digit(c[1])
    ensures FoldNumeric(c, 0, 1) == (10 * d0 + d1, 7)
  {
    assert FoldNumeric(c, 0, 1) == FoldNumeric(c[1..], d0, 4);
    assert FoldNumeric(c[1..], d0, 4) == FoldNumeric(c[2..], 10 * d0 + d1, 7);
  }

  lemma FoldNumericThree(c: seq<Byte>, d0: nat, d1: nat, d2: nat)
    requires |c| == 3 && AllDigits(c) && d0 == Digit(c[0]) && d1 == Digit(c[1]) && d2 == Digit(c[2])
    requires Decimal(c[..2]) == 10 * d0 + d1
    ensures FoldNumeric(c, 0, 1) == (Decimal(c), 10)
    ensures Decimal(c) == 100 * d0 + 10 * d1 + d2
  {
    assert c[..2] == c[..|c| - 1];
    assert Decimal(c) == 10 * (10 * d0 + d1) + d2;
    assert FoldNumeric(c, 0, 1) == FoldNumeric(c[1..], d0, 4);
    assert FoldNumeric(c[1..], d0, 4) == FoldNumeric(c[2..], 10 * d0 + d1, 7);
    assert FoldNumeric(c[2..], 10 * d0 + d1, 7) == FoldNumeric(c[3..], 10 * (10 * d0 + d1) + d2, 10);
  }

  function GroupBits(c: seq<Byte>): (r: seq<bool>)
    requires 1 <= |c| <= 3 && AllDigits(c)
  {
    BitsOf(NumericGroup(c).0, NumericGroup(c).1)
  }

  /** Number of bits of a numeric segment of `n` digits. */
  function NumericLength(n: nat): nat
  {
    10 * (n / 3) + (if n % 3 == 0 then 0 else if n % 3 == 1 then 4 else 7)
  }

  lemma NumericLengthStep(n: nat)
    requires n > 3
    ensures NumericLength(n) == 10 + NumericLength(n - 3)
  {
  }

  /** The bits `encode_numeric` appends: the groups of three digits from the left. */
  function NumericBits(s: seq<Byte>): (r: seq<bool>)
    requires AllDigits(s)
    ensures |r| == NumericLength(|s|)
    decreases |s|
  {
    if s == [] then []
    else if |s| <= 3 then GroupBits(s)
    else
      NumericLengthStep(|s|);
      GroupBits(s[..3]) + NumericBits(s[3..])
  }

  /** The digit byte of a value below ten. */
  function DigitByte(d: nat): (r: Byte)
    requires d < 10
  {
    '0' as int + d
  }

  /** The `n` decimal digits of `v`, most significant first, leading zeros kept. */
  function DigitsOf(v: nat, n: nat): (r: seq<Byte>)
    ensures |r| == n
  {
    if n == 0 then [] else DigitsOf(v / 10, n - 1) + [DigitByte(v % 10)]
  }

  /** Writing out the decimal value of a digit run with its length gives the run back. */
  lemma {:induction false} DigitsOfDecimal(c: seq<Byte>)
    requires AllDigits(c)
    ensures DigitsOf(Decimal(c), |c|) == c
  {
    if c != [] {
      var p, b := c[..|c| - 1], c[|c| - 1];
      assert forall i :: 0 <= i < |p| ==> p[i] == c[i];
      DigitsOfDecimal(p);
      var v, d := Decimal(c), Digit(b);
      assert v == 10 * Decimal(p) + d;
      assert v / 10 == Decimal(p) && v % 10 == d;
      assert c == p + [b];
    }
  }

  /**
   * Reading `n` digits back from a numeric segment: ten bits for each three
   * digits, then four or seven bits for the last one or two.
   */
  function DecodeNumeric(bits: seq<bool>, n: nat): (r: seq<Byte>)
    requires |bits| == NumericLength(n)
    decreases n
  {
    if n <= 3 then DigitsOf(Value(bits), n)
    else
      NumericLengthStep(n);
      DigitsOf(Value(bits[..10]), 3) + DecodeNumeric(bits[10..], n - 3)
  }

  lemma GroupRoundTrip(c: seq<Byte>)
    requires 1 <= |c| <= 3 && AllDigits(c)
    ensures DigitsOf(Value(GroupBits(c)), |c|) == c
  {
    var t := NumericGroup(c);
    ValueOfBitsOfSmall(t.0, t.1);
    DigitsOfDecimal(c);
  }

  /** Decoding a group's ten bits and then the rest. */
  lemma DecodeNumericCons(x: seq<bool>, y: seq<bool>, n: nat)
    requires |x| == 10 && n > 3 && |y| == NumericLength(n - 3)
    ensures |x + y| == NumericLength(n)
    ensures DecodeNumeric(x + y, n) == DecodeNumeric(x, 3) + DecodeNumeric(y, n - 3)
  {
    NumericLengthStep(n);
    assert (x + y)[..10] == x && (x + y)[10..] == y;
  }

  /** A numeric segment reads back as the digits it was made from. */
  lemma {:induction false} NumericRoundTrip(s: seq<Byte>)
    requires AllDigits(s)
    ensures DecodeNumeric(NumericBits(s), |s|) == s
    decreases |s|
  {
    if s == [] {
    } else if |s| <= 3 {
      GroupRoundTrip(s);
    } else {
      var g, rest := s[..3], s[3..];
      assert AllDigits(rest) by {
        assert forall i :: 0 <= i < |rest| ==> rest[i] == s[i + 3];
      }
      var x, y := GroupBits(g), NumericBits(rest);
      assert NumericBits(s) == x + y;
      DecodeNumericCons(x, y, |s|);
      GroupRoundTrip(g);
      NumericRoundTrip(rest);
      assert s == g + rest;
    }
  }

  // ---------------------------------------------------------------------
  // Alphanumeric segments (section 7.4.4 of ISO/IEC 18004:2015).

  /** The `fold((0, 1), |(acc, w), b| (acc * 45 + b, w + 5))` of `encode_alphanumeric`, over symbol values. */
  function FoldAlphanumeric(c: seq<Byte>, acc: nat, w: nat): (r: (nat, nat))
    decreases |c|
  {
    if c == [] then (acc, w)
    else FoldAlphanumeric(c[1..], acc * 45 + ByteToAlphanumeric(c[0]), w + 5)
  }

  /**
   * One group of `chunks(2)`: a pair gives `45 * a0 + a1` in 11 bits, a
   * single trailing symbol its value in 6 bits.
   */
  function AlphanumericGroup(c: seq<Byte>): (r: (nat, nat))
    requires 1 <= |c| <= 2
    ensures r.1 == 5 * |c| + 1
    ensures r.0 == if |c| == 1 then ByteToAlphanumeric(c[0])
                   else 45 * ByteToAlphanumeric(c[0]) + ByteToAlphanumeric(c[1])
    ensures 1 <= r.1 <= 16 && r.0 < Pow2(r.1)
  {
    AlphanumericGroupFold(c);
    Pow2Widths();
    FoldAlphanumeric(c, 0, 1)
  }

  lemma AlphanumericGroupFold(c: seq<Byte>)
    requires 1 <= |c| <= 2
    ensures var a0 := ByteToAlphanumeric(c[0]);
      FoldAlphanumeric(c, 0, 1) ==
        if |c| == 1 then (a0, 6) else (45 * a0 + ByteToAlphanumeric(c[1]), 11)
  {
    assert FoldAlphanumeric(c, 0, 1) == FoldAlphanumeric(c[1..], ByteToAlphanumeric(c[0]), 6);
    if |c| == 2 {
      assert c[1..][1..] == [];
    }
  }

  function PairBits(c: seq<Byte>): (r: seq<bool>)
    requires 1 <= |c| <= 2
  {
    BitsOf(AlphanumericGroup(c).0, AlphanumericGroup(c).1)
  }

  /** Number of bits of an alphanumeric segment of `n` symbols. */
  function AlphanumericLength(n: nat): nat
  {
    11 * (n / 2) + 6 * (n % 2)
  }

  lemma AlphanumericLengthStep(n: nat)
    requires n > 2
    ensures AlphanumericLength(n) == 11 + AlphanumericLength(n - 2)
  {
  }

  /** The bits `encode_alphanumeric` appends: the pairs from the left. */
  function AlphanumericBits(s: seq<Byte>): (r: seq<bool>)
    ensures |r| == AlphanumericLength(|s|)
    decreases |s|
  {
    if s == [] then []
    else if |s| <= 2 then PairBits(s)
    else
      AlphanumericLengthStep(|s|);
      PairBits(s[..2]) + AlphanumericBits(s[2..])
  }

  /**
   * Reading `n` symbols back from an alphanumeric segment: eleven bits for
   * each pair, then six bits for a last single one.
   */
  function DecodeAlphanumeric(bits: seq<bool>, n: nat): (r: seq<Byte>)
    requires |bits| == AlphanumericLength(n)
    decreases n
  {
    if n == 0 then []
    else if n == 1 then [SymbolOf(Value(bits))]
    else
      var v := Value(bits[..11]);
      [SymbolOf(v / 45), SymbolOf(v % 45)] + DecodeAlphanumeric(bits[11..], n - 2)
  }

  /** The bytes a lenient alphanumeric encoding keeps: those outside the alphabet become `'0'`. */
  function Normalized(s: seq<Byte>): (r: seq<Byte>)
    ensures |r| == |s|
  {
    seq(|s|, i requires 0 <= i < |s| => if Qr.IsAlphanumeric(s[i]) then s[i] else '0' as int)
  }

  lemma SymbolOfValue(b: Byte)
    ensures SymbolOf(ByteToAlphanumeric(b)) == if Qr.IsAlphanumeric(b) then b else '0' as int
  {
    if Qr.IsAlphanumeric(b) {
      SymbolOfByte(b);
    }
  }

  lemma PairRoundTrip(c: seq<Byte>)
    requires 1 <= |c| <= 2
    ensures DecodeAlphanumeric(PairBits(c), |c|) == Normalized(c)
  {
    var t := AlphanumericGroup(c);
    ValueOfBitsOfSmall(t.0, t.1);
    SymbolOfValue(c[0]);
    if |c| == 2 {
      SymbolOfValue(c[1]);
      DivMod45(ByteToAlphanumeric(c[0]), ByteToAlphanumeric(c[1]), t.0);
      PairDecode(PairBits(c), t.0);
    }
  }

  lemma DivMod45(a0: nat, a1: nat, v: nat)
    requires a1 < 45 && v == 45 * a0 + a1
    ensures v / 45 == a0 && v % 45 == a1
  {
  }

  lemma PairDecode(bits: seq<bool>, v: nat)
    requires |bits| == 11 && Value(bits) == v
    ensures DecodeAlphanumeric(bits, 2) == [SymbolOf(v / 45), SymbolOf(v % 45)]
  {
    assert bits[..11] == bits;
  }

  /** Decoding a pair's eleven bits and then the rest. */
  lemma DecodeAlphanumericCons(x: seq<bool>, y: seq<bool>, n: nat)
    requires |x| == 11 && n > 2 && |y| == AlphanumericLength(n - 2)
    ensures |x + y| == AlphanumericLength(n)
    ensures DecodeAlphanumeric(x + y, n) == DecodeAlphanumeric(x, 2) + DecodeAlphanumeric(y, n - 2)
  {
    AlphanumericLengthStep(n);
    assert (x + y)[..11] == x && (x + y)[11..] == y;
    assert x[..11] == x;
  }

  /**
   * An alphanumeric segment reads back as its input, with every byte outside
   * the alphabet read as `'0'` (the value `byte_to_alphanumeric` gives it).
   */
  lemma {:induction false} AlphanumericRoundTrip(s: seq<Byte>)
    ensures DecodeAlphanumeric(AlphanumericBits(s), |s|) == Normalized(s)
    decreases |s|
  {
    if s == [] {
    } else if |s| <= 2 {
      assert AlphanumericBits(s) == PairBits(s);
      PairRoundTrip(s);
    } else {
      var g, rest := s[..2], s[2..];
      var x, y := PairBits(g), AlphanumericBits(rest);
      assert AlphanumericBits(s) == x + y;
      DecodeAlphanumericCons(x, y, |s|);
      PairRoundTrip(g);
      AlphanumericRoundTrip(rest);
      NormalizedSplit(s, 2);
      assert DecodeAlphanumeric(x + y, |s|) == Normalized(g) + Normalized(rest);
    }
  }

  lemma NormalizedSplit(s: seq<Byte>, k: nat)
    requires k <= |s|
    ensures Normalized(s) == Normalized(s[..k]) + Normalized(s[k..])
  {
  }

  /** On alphanumeric input the segment reads back exactly. */
  lemma AlphanumericRoundTripExact(s: seq<Byte>)
    requires forall i :: 0 <= i < |s| ==> Qr.IsAlphanumeric(s[i])
    ensures DecodeAlphanumeric(AlphanumericBits(s), |s|) == s
  {
    AlphanumericRoundTrip(s);
    assert Normalized(s) == s;
  }

  // ---------------------------------------------------------------------
  // Header and data bits.

  /** The mode indicator in four bits, then the character count in the version's count width. */
  function Header(v: Qr.Version, mode: Qr.EncodingMode, count: nat): (r: seq<bool>)
    ensures |r| == 4 + CountBits(v, mode)
  {
    BitsOf(Qr.Indicator(mode), 4) + BitsOf(count, CountBits(v, mode))
  }

  /** The header reads back as the mode indicator and the count, when the count fits its field. */
  lemma HeaderRoundTrip(v: Qr.Version, mode: Qr.EncodingMode, count: nat)
    requires count < Pow2(CountBits(v, mode))
    ensures Value(Header(v, mode, count)[..4]) == Qr.Indicator(mode)
    ensures Value(Header(v, mode, count)[4..]) == count
  {
    var a, b := BitsOf(Qr.Indicator(mode), 4), BitsOf(count, CountBits(v, mode));
    assert (a + b)[..4] == a && (a + b)[4..] == b;
    ValueOfBitsOfSmall(Qr.Indicator(mode), 4);
    ValueOfBitsOfSmall(count, CountBits(v, mode));
  }

  /** Number of bits of a segment of `n` input bytes in `mode`. */
  function SegmentLength(mode: Qr.EncodingMode, n: nat): nat
  {
    match mode
    case Numeric => NumericLength(n)
    case Alphanumeric => AlphanumericLength(n)
    case Byte => 8 * n
  }

  /** The bits the encoder of `mode` appends for `s`. */
  function SegmentBits(mode: Qr.EncodingMode, s: seq<Byte>): (r: seq<bool>)
    requires mode == Qr.Numeric ==> AllDigits(s)
    ensures |r| == SegmentLength(mode, |s|)
  {
    match mode
    case Numeric => NumericBits(s)
    case Alphanumeric => AlphanumericBits(s)
    case Byte => Unpack(s)
  }

  /** Reading `n` input bytes back from a segment in `mode`. */
  function ReadSegment(mode: Qr.EncodingMode, bits: seq<bool>, n: nat): seq<Byte>
    requires |bits| == SegmentLength(mode, n)
  {
    match mode
    case Numeric => DecodeNumeric(bits, n)
    case Alphanumeric => DecodeAlphanumeric(bits, n)
    case Byte => Pack(bits)
  }

  /** Every segment the analysed mode produces reads back as the input. */
  lemma SegmentRoundTrip(s: seq<Byte>)
    ensures var mode := Qr.ModeOf(s);
      (mode == Qr.Numeric ==> AllDigits(s)) &&
      ReadSegment(mode, SegmentBits(mode, s), |s|) == s
  {
    Qr.ModeOfNumeric(s);
    Qr.ModeOfAlphanumeric(s);
    match Qr.ModeOf(s)
    case Numeric => NumericRoundTrip(s);
    case Alphanumeric => AlphanumericRoundTripExact(s);
    case Byte => PackUnpack(s);
  }

  /** Header and segment of `s` in the mode `analyze_string` picks. */
  function DataBits(s: seq<Byte>, v: Qr.Version): (r: seq<bool>)
    ensures |r| == 4 + CountBits(v, Qr.ModeOf(s)) + SegmentLength(Qr.ModeOf(s), |s|)
  {
    var mode := Qr.ModeOf(s);
    Qr.ModeOfNumeric(s);
    Header(v, mode, |s|) + SegmentBits(mode, s)
  }

  // ---------------------------------------------------------------------
  // Terminator and pad codewords (sections 7.4.9 and 7.4.10 of ISO/IEC 18004:2015).

  /** `[0xec, 0x11][i & 1]`: the pad codewords alternate, starting with `0xEC`. */
  function PadByte(i: nat): (r: Byte)
  {
    if i % 2 == 0 then 0xEC else 0x11
  }

  /** `n` pad codewords, starting with `0xEC`. */
  function Pads(n: nat): (r: seq<Byte>)
    ensures |r| == n
    ensures n > 0 ==> r[0] == 0xEC
    ensures forall i :: 0 <= i < n ==> r[i] == 0xEC || r[i] == 0x11
    ensures forall i, j :: 0 <= i < n && 0 <= j < n && j == i + 1 ==> r[j] != r[i]
  {
    seq<Byte>(n, i requires 0 <= i => PadByte(i))
  }

  lemma PadsGrow(n: nat)
    ensures Pads(n + 1) == Pads(n) + [PadByte(n)]
  {
  }

  lemma PadsExtend(start: seq<Byte>, n: nat)
    ensures start + Pads(n) + [PadByte(n)] == start + Pads(n + 1)
  {
    PadsGrow(n);
  }

  /**
   * What `encode_end` leaves of a stream with codewords `bytes` and `shift`
   * bits used in the last one.
   */
  function Finish(bytes: seq<Byte>, shift: nat, required: nat): (r: seq<Byte>)
  {
    var t := if (shift > 4 || shift == 0) && |bytes| < required then bytes + [0] else bytes;
    if |t| < required then t + Pads(required - |t|) else t
  }

  /** It never removes a codeword and fills the stream up to `required`. */
  lemma FinishLength(bytes: seq<Byte>, shift: nat, required: nat)
    ensures |Finish(bytes, shift, required)| == if |bytes| < required then required else |bytes|
    ensures Finish(bytes, shift, required)[..|bytes|] == bytes
  {
  }

  /**
   * The terminator and padding as the standard states them: up to four zero
   * bits (fewer when the symbol has less room left), zero bits to the byte
   * boundary, then pad codewords up to the capacity.
   */
  function StandardCodewords(bits: seq<bool>, required: nat): (r: seq<Byte>)
    requires |bits| <= 8 * required
  {
    var room := 8 * required - |bits|;
    var words := Pack(bits + Zeros(if room < 4 then room else 4));
    if |words| < required then words + Pads(required - |words|) else words
  }

  lemma PackedLength(n: nat)
    ensures 8 * ((n + 7) / 8) == n + FillBits(n)
  {
  }

  /** A stream already at or over the capacity gets neither terminator nor pads. */
  lemma FinishFull(bits: seq<bool>, required: nat)
    requires |bits| <= 8 * required <= |bits| + FillBits(|bits|)
    ensures Finish(Pack(bits), |bits| % 8, required) == StandardCodewords(bits, required)
  {
    var room := 8 * required - |bits|;
    PackZerosWithin(bits, if room < 4 then room else 4);
  }

  /** Fewer than four free bits in the last codeword: a zero codeword completes the terminator. */
  lemma FinishTerminated(bits: seq<bool>, required: nat)
    requires FillBits(|bits|) < 4 && |bits| + FillBits(|bits|) + 8 <= 8 * required
    ensures Finish(Pack(bits), |bits| % 8, required) == StandardCodewords(bits, required)
  {
    PackZerosPast(bits, 4);
  }

  /** Four free bits or more: the terminator fits in the last codeword. */
  lemma FinishUnterminated(bits: seq<bool>, required: nat)
    requires 4 <= FillBits(|bits|) && |bits| + FillBits(|bits|) + 8 <= 8 * required
    ensures Finish(Pack(bits), |bits| % 8, required) == StandardCodewords(bits, required)
  {
    PackZerosWithin(bits, 4);
  }

  /**
   * `encode_end` applies the standard's terminator and padding: its test
   * `shift > 4 || shift == 0` is exactly "fewer than four free bits".
   */
  lemma FinishIsStandard(bits: seq<bool>, required: nat)
    requires |bits| <= 8 * required
    ensures Finish(Pack(bits), |bits| % 8, required) == StandardCodewords(bits, required)
  {
    var n := |bits|;
    PackedLength(n);
    if |Pack(bits)| >= required {
      FinishFull(bits, required);
    } else if FillBits(n) < 4 {
      FinishTerminated(bits, required);
    } else {
      FinishUnterminated(bits, required);
    }
  }

  // ---------------------------------------------------------------------
  // The whole encoding.

  /** `create_bits` as a function: `None` when the content overflows the capacity. */
  function Encode(s: seq<Byte>, v: Qr.Version, ec: Qr.ErrorCorrection): (r: Option<(seq<Byte>, Qr.EncodingMode)>)
  {
    var bits := DataBits(s, v);
    var required := Qr.DataSize(v, ec);
    var out := Finish(Pack(bits), |bits| % 8, required);
    if |out| > required then None else Some((out, Qr.ModeOf(s)))
  }

  /**
   * The encoding fails exactly when header and data take more codewords than
   * the capacity; otherwise it gives exactly the capacity, in the analysed
   * mode, laid out as the standard prescribes.
   */
  lemma EncodeResult(s: seq<Byte>, v: Qr.Version, ec: Qr.ErrorCorrection)
    ensures var bits, required := DataBits(s, v), Qr.DataSize(v, ec);
      (Encode(s, v, ec).None? <==> (|bits| + 7) / 8 > required) &&
      (Encode(s, v, ec).Some? ==>
        |Encode(s, v, ec).value.0| == required &&
        Encode(s, v, ec).value.1 == Qr.ModeOf(s) &&
        |bits| <= 8 * required &&
        Encode(s, v, ec).value.0 == StandardCodewords(bits, required))
  {
    var bits, required := DataBits(s, v), Qr.DataSize(v, ec);
    FinishLength(Pack(bits), |bits| % 8, required);
    if (|bits| + 7) / 8 <= required {
      PackedLength(|bits|);
      FinishIsStandard(bits, required);
    }
  }

  /** The codewords unpack to the data bits they start with. */
  lemma UnpackPrefix(x: seq<bool>, tail: seq<Byte>)
    ensures |x| <= |Unpack(Pack(x) + tail)|
    ensures Unpack(Pack(x) + tail)[..|x|] == x
  {
    UnpackAppend(Pack(x), tail);
    UnpackPack(x);
  }

  lemma StandardPrefix(bits: seq<bool>, required: nat)
    requires |bits| <= 8 * required
    ensures var u := Unpack(StandardCodewords(bits, required));
      |bits| <= |u| && u[..|bits|] == bits
  {
    var room := 8 * required - |bits|;
    var x := bits + Zeros(if room < 4 then room else 4);
    var words := Pack(x);
    var tail := if |words| < required then Pads(required - |words|) else [];
    assert StandardCodewords(bits, required) == words + tail;
    UnpackPrefix(x, tail);
    assert x[..|bits|] == bits;
  }

  lemma SliceOfPrefix(u: seq<bool>, p: seq<bool>, i: nat, j: nat)
    requires |p| <= |u| && u[..|p|] == p && i <= j <= |p|
    ensures u[i..j] == p[i..j]
  {
    assert forall k :: i <= k < j ==> u[k] == u[..|p|][k];
  }

  /** The mode whose indicator is `x`. */
  function ModeOfIndicator(x: nat): (r: Option<Qr.EncodingMode>)
    ensures r.Some? ==> Qr.Indicator(r.value) == x
  {
    if x == 1 then Some(Qr.Numeric)
    else if x == 2 then Some(Qr.Alphanumeric)
    else if x == 4 then Some(Qr.Byte)
    else None
  }

  lemma IndicatorRecognised(mode: Qr.EncodingMode)
    ensures ModeOfIndicator(Qr.Indicator(mode)) == Some(mode)
  {
  }

  /**
   * A reader of data bits for symbols of version `v`: the mode indicator,
   * the character count in that mode's width, then the segment.
   */
  function ReadData(u: seq<bool>, v: Qr.Version): Option<seq<Byte>>
  {
    if |u| < 4 then None
    else
      match ModeOfIndicator(Value(u[..4]))
      case None => None
      case Some(mode) => ReadCounted(u, v, mode)
  }

  /** The count and the segment that follow a mode indicator. */
  function ReadCounted(u: seq<bool>, v: Qr.Version, mode: Qr.EncodingMode): Option<seq<Byte>>
    requires 4 <= |u|
  {
    var c := 4 + CountBits(v, mode);
    if |u| < c then None else ReadSegmentAt(u, mode, c, Value(u[4..c]))
  }

  /** The segment of `n` units in `mode` that starts at bit `c`. */
  function ReadSegmentAt(u: seq<bool>, mode: Qr.EncodingMode, c: nat, n: nat): Option<seq<Byte>>
    requires c <= |u|
  {
    var e := c + SegmentLength(mode, n);
    if |u| < e then None else Some(ReadSegment(mode, u[c..e], n))
  }

  /** The reader follows the fields it finds. */
  lemma ReadDataFields(u: seq<bool>, v: Qr.Version, mode: Qr.EncodingMode, n: nat, c: nat, e: nat)
    requires c == 4 + CountBits(v, mode) && e == c + SegmentLength(mode, n) && e <= |u|
    requires Value(u[..4]) == Qr.Indicator(mode) && Value(u[4..c]) == n
    ensures ReadData(u, v) == Some(ReadSegment(mode, u[c..e], n))
  {
    IndicatorRecognised(mode);
    assert ReadData(u, v) == ReadCounted(u, v, mode);
    ReadCountedFields(u, v, mode, n, c, e);
  }

  lemma ReadCountedFields(u: seq<bool>, v: Qr.Version, mode: Qr.EncodingMode, n: nat, c: nat, e: nat)
    requires c == 4 + CountBits(v, mode) && e == c + SegmentLength(mode, n) && e <= |u|
    requires Value(u[4..c]) == n
    ensures ReadCounted(u, v, mode) == Some(ReadSegment(mode, u[c..e], n))
  {
    assert ReadCounted(u, v, mode) == ReadSegmentAt(u, mode, c, n);
    ReadSegmentAtFields(u, mode, c, n, e);
  }

  lemma ReadSegmentAtFields(u: seq<bool>, mode: Qr.EncodingMode, c: nat, n: nat, e: nat)
    requires e == c + SegmentLength(mode, n) && e <= |u|
    ensures ReadSegmentAt(u, mode, c, n) == Some(ReadSegment(mode, u[c..e], n))
  {
  }

  /** The fields of a bit string that starts with a header `h` and a segment `g`. */
  lemma HeaderFields(u: seq<bool>, h: seq<bool>, g: seq<bool>)
    requires 4 <= |h| && |h + g| <= |u| && u[..|h + g|] == h + g
    ensures u[..4] == h[..4] && u[4..|h|] == h[4..] && u[|h|..|h| + |g|] == g
  {
    var p := h + g;
    SliceOfPrefix(u, p, 0, 4);
    SliceOfPrefix(u, p, 4, |h|);
    SliceOfPrefix(u, p, |h|, |p|);
    assert p[0..4] == h[..4] && p[4..|h|] == h[4..] && p[|h|..|p|] == g;
    assert u[..4] == u[0..4];
  }

  /** A bit string that starts with a header for `n` symbols and a segment that reads back as `x`. */
  lemma HeaderAndSegment(u: seq<bool>, v: Qr.Version, mode: Qr.EncodingMode, h: seq<bool>, g: seq<bool>, x: seq<Byte>)
    requires |h| == 4 + CountBits(v, mode) && |g| == SegmentLength(mode, |x|)
    requires |h + g| <= |u| && u[..|h + g|] == h + g
    requires Value(h[..4]) == Qr.Indicator(mode) && Value(h[4..]) == |x|
    requires ReadSegment(mode, g, |x|) == x
    ensures ReadData(u, v) == Some(x)
  {
    HeaderFields(u, h, g);
    ReadDataFields(u, v, mode, |x|, |h|, |h| + |g|);
  }

  lemma DataBitsParts(s: seq<Byte>, v: Qr.Version)
    ensures Qr.ModeOf(s) == Qr.Numeric ==> AllDigits(s)
    ensures DataBits(s, v) == Header(v, Qr.ModeOf(s), |s|) + SegmentBits(Qr.ModeOf(s), s)
  {
    Qr.ModeOfNumeric(s);
  }

  /** Any bit string that starts with the data bits of `s` reads back as `s`. */
  lemma DataReadsBack(s: seq<Byte>, v: Qr.Version, u: seq<bool>)
    requires |s| < Pow2(CountBits(v, Qr.ModeOf(s)))
    requires |DataBits(s, v)| <= |u| && u[..|DataBits(s, v)|] == DataBits(s, v)
    ensures ReadData(u, v) == Some(s)
  {
    var mode := Qr.ModeOf(s);
    DataBitsParts(s, v);
    HeaderRoundTrip(v, mode, |s|);
    SegmentRoundTrip(s);
    HeaderAndSegment(u, v, mode, Header(v, mode, |s|), SegmentBits(mode, s), s);
  }

  /** The codewords of a successful encoding read back as the input. */
  lemma EncodeReadsBack(s: seq<Byte>, v: Qr.Version, ec: Qr.ErrorCorrection)
    requires |s| < Pow2(CountBits(v, Qr.ModeOf(s)))
    requires Encode(s, v, ec).Some?
    ensures ReadData(Unpack(Encode(s, v, ec).value.0), v) == Some(s)
  {
    EncodeResult(s, v, ec);
    StandardPrefix(DataBits(s, v), Qr.DataSize(v, ec));
    DataReadsBack(s, v, Unpack(Encode(s, v, ec).value.0));
  }

  /** The largest capacity among the versions that share `v`'s count widths. */
  function WidestCapacity(v: Qr.Version): nat
  {
    if v <= 9 then 232 else if v <= 26 then 1370 else 2956
  }

  lemma CapacityBelowWidest(v: Qr.Version, ec: Qr.ErrorCorrection)
    ensures Qr.DataSize(v, ec) <= WidestCapacity(v)
  {
    var top: Qr.Version := if v <= 9 then 9 else if v <= 26 then 26 else 40;
    if v < top {
      Qr.DataSizeIncreasing(v, top, ec);
    }
    Qr.DataSizeLevels(top);
    assert Qr.DataSize(top, Qr.L) == WidestCapacity(v);
  }

  /** A segment whose length overflows its count field is longer than any capacity of those versions. */
  lemma LongSegment(v: Qr.Version, mode: Qr.EncodingMode, n: nat)
    requires n >= Pow2(CountBits(v, mode))
    ensures SegmentLength(mode, n) > 8 * WidestCapacity(v)
  {
    Pow2Widths();
    Pow2Counts();
    match mode
    case Numeric =>
      assert v <= 9 ==> n / 3 >= 341;
      assert 9 < v <= 26 ==> n / 3 >= 1365;
      assert 26 < v ==> n / 3 >= 5461;
    case Alphanumeric =>
      assert v <= 9 ==> n / 2 >= 256;
      assert 9 < v <= 26 ==> n / 2 >= 1024;
      assert 26 < v ==> n / 2 >= 4096;
    case Byte =>
  }

  /**
   * An input whose length does not fit its count field cannot fit the symbol
   * either: every such input overflows the capacity of its version.
   */
  lemma LongInputsOverflow(s: seq<Byte>, v: Qr.Version, ec: Qr.ErrorCorrection)
    requires |s| >= Pow2(CountBits(v, Qr.ModeOf(s)))
    ensures Encode(s, v, ec).None?
  {
    EncodeResult(s, v, ec);
    LongSegment(v, Qr.ModeOf(s), |s|);
    CapacityBelowWidest(v, ec);
  }

  /** A whole leading byte packs to itself. */
  lemma PackLeadingByte(d: Byte, rest: seq<bool>)
    ensures Pack(BitsOf(d, 8) + rest) == [d] + Pack(rest)
  {
    PackByte([], d);
    assert [] + BitsOf(d, 8) == BitsOf(d, 8);
    PackAppendAligned(BitsOf(d, 8), rest);
  }

  lemma NineDataBits()
    ensures DataBits([0x39], 1) == BitsOf(0x10, 8) + BitsOf(0x06, 8) + BitsOf(1, 2)
    ensures |DataBits([0x39], 1)| % 8 == 2
    ensures Pack(DataBits([0x39], 1)) == [0x10, 0x06, 0x40]
    ensures Qr.ModeOf([0x39]) == Qr.Numeric
  {
    NinePacked();
    var s: seq<Byte> := [0x39];
    assert Qr.ModeOf(s) == Qr.Numeric;
    NumericGroupFold(s);
    assert NumericBits(s) == BitsOf(9, 4);
    assert DataBits(s, 1) == BitsOf(1, 4) + BitsOf(1, 10) + BitsOf(9, 4);
    NineBits();
  }

  lemma NineBits()
    ensures BitsOf(1, 4) + BitsOf(1, 10) + BitsOf(9, 4) == BitsOf(0x10, 8) + BitsOf(0x06, 8) + BitsOf(1, 2)
  {
    NineHeaderBits();
    NineCodewordBits();
    var f, t := false, true;
    var middle := [f, f, f, f, f, t];
    assert [f, f, f, t] + [f, f, f, f, f, f, f, f, f, t] == [f, f, f, t, f, f, f, f] + middle;
    assert middle + [t, f, f, t] == [f, f, f, f, f, t, t, f] + [f, t];
  }

  lemma NineHeaderBits()
    ensures BitsOf(1, 4) == [false, false, false, true]
    ensures BitsOf(1, 10) == [false, false, false, false, false, false, false, false, false, true]
    ensures BitsOf(9, 4) == [true, false, false, true]
  {
    OneInTenBits();
    assert BitsOf(2, 3) == [false, true, false];
  }

  lemma OneInTenBits()
    ensures BitsOf(1, 10) == [false, false, false, false, false, false, false, false, false, true]
  {
    var f := false;
    assert BitsOf(0, 3) == [f, f, f];
    assert BitsOf(0, 6) == [f, f, f, f, f, f];
    assert BitsOf(0, 9) == [f, f, f, f, f, f, f, f, f];
  }

  lemma NineCodewordBits()
    ensures BitsOf(0x10, 8) == [false, false, false, true, false, false, false, false]
    ensures BitsOf(0x06, 8) == [false, false, false, false, false, true, true, false]
    ensures BitsOf(1, 2) == [false, true]
  {
    SixteenBits();
    SixBits();
  }

  lemma SixteenBits()
    ensures BitsOf(0x10, 8) == [false, false, false, true, false, false, false, false]
  {
    assert BitsOf(1, 4) == [false, false, false, true];
    assert BitsOf(4, 6) == [false, false, false, true, false, false];
  }

  lemma SixBits()
    ensures BitsOf(0x06, 8) == [false, false, false, false, false, true, true, false]
  {
    assert BitsOf(0, 4) == [false, false, false, false];
    assert BitsOf(3, 6) == [false, false, false, false, true, true];
  }

  lemma NinePacked()
    ensures Pack(BitsOf(0x10, 8) + BitsOf(0x06, 8) + BitsOf(1, 2)) == [0x10, 0x06, 0x40]
  {
    var a, b, c := BitsOf(0x10, 8), BitsOf(0x06, 8), BitsOf(1, 2);
    assert a + b + c == a + (b + c);
    PackLeadingByte(0x10, b + c);
    PackLeadingByte(0x06, c);
    Pow2Widths();
    ValueOfBitsOfSmall(1, 2);
    assert Chunk(c) == 0x40;
  }

  /** `Encode` in terms of the codewords `Finish` leaves. */
  lemma EncodeIs(s: seq<Byte>, v: Qr.Version, ec: Qr.ErrorCorrection, out: seq<Byte>)
    requires var bits := DataBits(s, v);
      Finish(Pack(bits), |bits| % 8, Qr.DataSize(v, ec)) == out
    ensures Encode(s, v, ec) == if |out| > Qr.DataSize(v, ec) then None else Some((out, Qr.ModeOf(s)))
  {
  }

  /** Data that ends in the last codeword gets neither a terminator codeword nor pads. */
  lemma FullSymbol(s: seq<Byte>, v: Qr.Version, ec: Qr.ErrorCorrection)
    requires (|DataBits(s, v)| + 7) / 8 == Qr.DataSize(v, ec)
    ensures Encode(s, v, ec) == Some((Pack(DataBits(s, v)), Qr.ModeOf(s)))
  {
    var bits := DataBits(s, v);
    EncodeIs(s, v, ec, Finish(Pack(bits), |bits| % 8, Qr.DataSize(v, ec)));
  }

  /** Seventeen nines take 71 bits and so fill a version 1-H symbol exactly. */
  lemma SeventeenNines()
    ensures var s := seq(17, _ => 0x39 as Byte);
      |DataBits(s, 1)| == 71 &&
      Encode(s, 1, Qr.H) == Some((Pack(DataBits(s, 1)), Qr.Numeric))
  {
    var s := seq(17, _ => 0x39 as Byte);
    Qr.ModeOfNumeric(s);
    assert Qr.ModeOf(s) == Qr.Numeric;
    assert NumericLength(17) == 57;
    assert Qr.DataSize(1, Qr.H) == 9;
    FullSymbol(s, 1, Qr.H);
  }

  /** The single digit `9` in a version 1-H symbol. */
  lemma NineAtVersion1High()
    ensures Encode([0x39], 1, Qr.H) == Some(([0x10, 0x06, 0x40, 0xEC, 0x11, 0xEC, 0x11, 0xEC, 0x11], Qr.Numeric))
  {
    NineDataBits();
    NineFinish();
    SmallestCapacity();
    EncodeIs([0x39], 1, Qr.H, [0x10, 0x06, 0x40, 0xEC, 0x11, 0xEC, 0x11, 0xEC, 0x11]);
  }

  lemma SmallestCapacity()
    ensures Qr.DataSize(1, Qr.H) == 9
  {
  }

  lemma NineFinish()
    ensures Finish([0x10, 0x06, 0x40], 2, 9) == [0x10, 0x06, 0x40, 0xEC, 0x11, 0xEC, 0x11, 0xEC, 0x11]
  {
    PadsSix();
  }

  lemma PadsSix()
    ensures Pads(6) == [0xEC, 0x11, 0xEC, 0x11, 0xEC, 0x11]
  {
    var p := Pads(6);
    assert p[0] == 0xEC && p[1] == 0x11 && p[2] == 0xEC && p[3] == 0x11 && p[4] == 0xEC && p[5] == 0x11;
  }

  // ---------------------------------------------------------------------
  // The encoders, writing into a `Bytes` stream.

  /** The first pair of a non-empty input and the rest. */
  lemma AlphanumericBitsHead(s: seq<Byte>, i: nat, end: nat)
    requires i < |s| && end == (if |s| - i < 2 then |s| else i + 2)
    ensures AlphanumericBits(s[i..]) == PairBits(s[i..end]) + AlphanumericBits(s[end..])
  {
    var x := s[i..];
    if |x| <= 2 {
      assert s[i..end] == x && s[end..] == [];
      assert AlphanumericBits(s[end..]) == [];
    } else {
      assert x[..2] == s[i..end] && x[2..] == s[end..];
    }
  }

  /** The first group of at most three digits and the rest. */
  lemma NumericBitsHead(s: seq<Byte>, i: nat, end: nat)
    requires AllDigits(s) && i < |s| && end == (if |s| - i < 3 then |s| else i + 3)
    ensures AllDigits(s[i..]) && AllDigits(s[i..end]) && AllDigits(s[end..])
    ensures NumericBits(s[i..]) == GroupBits(s[i..end]) + NumericBits(s[end..])
  {
    var x := s[i..];
    assert AllDigits(x) && AllDigits(s[i..end]) && AllDigits(s[end..]);
    if |x| <= 3 {
      assert s[i..end] == x && s[end..] == [];
      assert NumericBits(s[end..]) == [];
    } else {
      assert x[..3] == s[i..end] && x[3..] == s[end..];
    }
  }

  lemma UnpackHead(s: seq<Byte>, i: nat)
    requires i < |s|
    ensures Unpack(s[i..]) == BitsOf(s[i], 8) + Unpack(s[i + 1..])
  {
    assert s[i..] == [s[i]] + s[i + 1..];
    UnpackCons(s[i], s[i + 1..]);
  }

  lemma Reassociate(a: seq<bool>, b: seq<bool>, c: seq<bool>)
    ensures a + (b + c) == a + b + c
  {
  }

  /** `encode_byte`: every byte of the input at width 8. */
  method EncodeByte(s: seq<Byte>, bytes: Bytes)
    requires bytes.Valid()
    modifies bytes
    ensures bytes.Valid()
    ensures bytes.bits == old(bytes.bits) + Unpack(s)
  {
    Pow2Byte();
    var i := 0;
    while i < |s|
      invariant 0 <= i <= |s|
      invariant bytes.Valid()
      invariant old(bytes.bits) + Unpack(s) == bytes.bits + Unpack(s[i..])
    {
      UnpackHead(s, i);
      Reassociate(bytes.bits, BitsOf(s[i], 8), Unpack(s[i + 1..]));
      bytes.Push(s[i], 8);
      i := i + 1;
    }
    assert s[i..] == [];
  }

  /** `encode_alphanumeric`: pairs of symbols at width 11, a last single one at width 6. */
  method EncodeAlphanumeric(s: seq<Byte>, bytes: Bytes)
    requires bytes.Valid()
    modifies bytes
    ensures bytes.Valid()
    ensures bytes.bits == old(bytes.bits) + AlphanumericBits(s)
  {
    var i := 0;
    while i < |s|
      invariant 0 <= i <= |s|
      invariant bytes.Valid()
      invariant old(bytes.bits) + AlphanumericBits(s) == bytes.bits + AlphanumericBits(s[i..])
    {
      var end := if |s| - i < 2 then |s| else i + 2;
      var (value, width) := AlphanumericGroup(s[i..end]);
      AlphanumericBitsHead(s, i, end);
      Reassociate(bytes.bits, PairBits(s[i..end]), AlphanumericBits(s[end..]));
      bytes.Push(value, width);
      i := end;
    }
    assert s[i..] == [];
  }

  /** `encode_numeric`: groups of three digits at width 10, a shorter last group at width 4 or 7. */
  method EncodeNumeric(s: seq<Byte>, bytes: Bytes)
    requires AllDigits(s)
    requires bytes.Valid()
    modifies bytes
    ensures bytes.Valid()
    ensures bytes.bits == old(bytes.bits) + NumericBits(s)
  {
    var i := 0;
    while i < |s|
      invariant 0 <= i <= |s|
      invariant bytes.Valid()
      invariant AllDigits(s[i..])
      invariant old(bytes.bits) + NumericBits(s) == bytes.bits + NumericBits(s[i..])
    {
      var end := if |s| - i < 3 then |s| else i + 3;
      NumericBitsHead(s, i, end);
      var (value, width) := NumericGroup(s[i..end]);
      Reassociate(bytes.bits, GroupBits(s[i..end]), NumericBits(s[end..]));
      bytes.Push(value, width);
      i := end;
    }
    assert s[i..] == [];
  }

  /** `encode_start`: the mode indicator, then the character count. */
  method EncodeStart(bytes: Bytes, version: Qr.Version, mode: Qr.EncodingMode, count: nat)
    requires bytes.Valid()
    requires count < Pow2(CountBits(version, mode))
    modifies bytes
    ensures bytes.Valid()
    ensures bytes.bits == old(bytes.bits) + Header(version, mode, count)
  {
    var countBits := CountBits(version, mode);
    ghost var before := bytes.bits;
    Reassociate(before, BitsOf(Qr.Indicator(mode), 4), BitsOf(count, countBits));
    bytes.Push(Qr.Indicator(mode), 4);
    bytes.Push(count, countBits);
  }

  /** `encode_end`: the terminator and the pad codewords up to `required`. */
  method EncodeEnd(bytes: Bytes, required: nat)
    requires bytes.Valid()
    modifies bytes
    ensures bytes.Valid()
    ensures bytes.bytes == Finish(old(bytes.bytes), old(bytes.shift), required)
    ensures bytes.shift == if |old(bytes.bytes)| < required then 0 else old(bytes.shift)
  {
    if (bytes.Shift() > 4 || bytes.Shift() == 0) && bytes.Len() < required {
      bytes.PushFullByte(0);
    }
    ghost var start := bytes.bytes;
    var i := 0;
    while bytes.Len() < required
      invariant bytes.Valid()
      invariant bytes.bytes == start + Pads(i)
      invariant i == 0 || |bytes.bytes| <= required
      invariant |old(bytes.bytes)| < required ==> bytes.shift == 0 || (i == 0 && |bytes.bytes| < required)
      invariant |old(bytes.bytes)| >= required ==> bytes.shift == old(bytes.shift)
      decreases required - |bytes.bytes|
    {
      PadsExtend(start, i);
      bytes.PushFullByte(PadByte(i));
      i := i + 1;
    }
    FinishSteps(old(bytes.bytes), old(bytes.shift), required, start, i);
  }

  /** The two phases of `encode_end`: at most one terminator codeword, then the pads. */
  lemma FinishSteps(b: seq<Byte>, shift: nat, required: nat, start: seq<Byte>, i: nat)
    requires start == if (shift > 4 || shift == 0) && |b| < required then b + [0] else b
    requires |start| + i >= required && (i == 0 || |start| + i <= required)
    ensures Finish(b, shift, required) == start + Pads(i)
  {
    if |start| < required {
      assert i == required - |start|;
    } else {
      assert start + Pads(0) == start;
    }
  }

  /**
   * `create_bits`: analyse the input, write header, segment, terminator and
   * pads, and refuse a stream longer than the capacity.
   */
  method CreateBits(s: seq<Byte>, version: Qr.Version, ec: Qr.ErrorCorrection)
    returns (r: Option<(seq<Byte>, Qr.EncodingMode)>)
    requires |s| < Pow2(CountBits(version, Qr.ModeOf(s)))
    ensures r == Encode(s, version, ec)
  {
    var mode := Qr.AnalyzeString(s);
    var required := Qr.DataSize(version, ec);
    var bytes := new Bytes.WithCapacity(required);
    EncodeStart(bytes, version, mode, |s|);
    DataBitsParts(s, version);
    ghost var header := bytes.bits;
    assert header == Header(version, mode, |s|);
    match mode {
      case Numeric =>
        EncodeNumeric(s, bytes);
      case Alphanumeric =>
        EncodeAlphanumeric(s, bytes);
      case Byte =>
        EncodeByte(s, bytes);
    }
    assert bytes.bits == header + SegmentBits(mode, s);
    ghost var bits := bytes.bits;
    assert bits == DataBits(s, version);
    ghost var packed, shift := bytes.bytes, bytes.shift;
    assert packed == Pack(bits) && shift == |bits| % 8;
    EncodeEnd(bytes, required);
    assert bytes.bytes == Finish(packed, shift, required);
    EncodeIs(s, version, ec, bytes.bytes);
    if bytes.Len() > required {
      r := None;
    } else {
      var codewords, used := bytes.IntoParts();
      r := Some((codewords, mode));
    }
  }
}
