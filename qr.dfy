/**
 * The vocabulary of `lib.rs`: error-correction levels, encoding modes with
 * their mode indicators (Table 2 of ISO/IEC 18004:2015), the forty symbol
 * versions, the data-codeword capacity table (Table 7 of ISO/IEC 18004:2015)
 * with the first-fit version lookup, and the analysis that picks the mode of
 * a string from its bytes.
 */
module Qr {
  import Packing
  import opened Wrappers

  datatype ErrorCorrection = L | M | Q | H

  /** The encoding modes; Kanji is not part of the crate. */
  datatype EncodingMode = Numeric | Alphanumeric | Byte

  /** The mode indicator, the enum's discriminant (`mode as u16`). */
  function Indicator(mode: EncodingMode): (r: nat)
    ensures 0 < r < Packing.Pow2(4)
  {
    assert Packing.Pow2(4) == 16;
    match mode
    case Numeric => 0x1
    case Alphanumeric => 0x2
    case Byte => 0x4
  }

  /** Distinct modes announce themselves with distinct indicators. */
  lemma IndicatorInjective(a: EncodingMode, b: EncodingMode)
    ensures Indicator(a) == Indicator(b) <==> a == b
  {
  }

  /** `QRCodeVersion::V1` to `V40`, as the version number. */
  type Version = v: nat | 1 <= v <= 40 witness 1

  // ---------------------------------------------------------------------
  // Capacity.

  /**
   * The rows of `impl_qr_version!`: data codewords at levels L, M, Q and H;
   * the last arm is V40.
   */
  function Row(v: Version): (nat, nat, nat, nat)
  {
    match v
    case 1 => (19, 16, 13, 9)
    case 2 => (34, 28, 22, 16)
    case 3 => (55, 44, 34, 26)
    case 4 => (80, 64, 48, 36)
    case 5 => (108, 86, 62, 46)
    case 6 => (136, 108, 76, 60)
    case 7 => (156, 124, 88, 66)
    case 8 => (194, 154, 110, 86)
    case 9 => (232, 182, 132, 100)
    case 10 => (274, 216, 154, 122)
    case 11 => (324, 254, 180, 140)
    case 12 => (370, 290, 206, 158)
    case 13 => (428, 334, 244, 180)
    case 14 => (461, 365, 261, 197)
    case 15 => (523, 415, 295, 223)
    case 16 => (589, 453, 325, 253)
    case 17 => (647, 507, 367, 283)
    case 18 => (721, 563, 397, 313)
    case 19 => (795, 627, 445, 341)
    case 20 => (861, 669, 485, 385)
    case 21 => (932, 714, 512, 406)
    case 22 => (1006, 782, 568, 442)
    case 23 => (1094, 860, 614, 464)
    case 24 => (1174, 914, 664, 514)
    case 25 => (1276, 1000, 718, 538)
    case 26 => (1370, 1062, 754, 596)
    case 27 => (1468, 1128, 808, 628)
    case 28 => (1531, 1193, 871, 661)
    case 29 => (1631, 1267, 911, 701)
    case 30 => (1735, 1373, 985, 745)
    case 31 => (1843, 1455, 1033, 793)
    case 32 => (1955, 1541, 1115, 845)
    case 33 => (2071, 1631, 1171, 901)
    case 34 => (2191, 1725, 1231, 961)
    case 35 => (2306, 1812, 1286, 986)
    case 36 => (2434, 1914, 1354, 1054)
    case 37 => (2566, 1992, 1426, 1096)
    case 38 => (2702, 2102, 1502, 1142)
    case 39 => (2812, 2216, 1582, 1222)
    case _ => (2956, 2334, 1666, 1276)
  }

  /** `data_size`: the number of data codewords of version `v` at level `ec`. */
  function DataSize(v: Version, ec: ErrorCorrection): (r: nat)
    ensures 9 <= r <= 2956
  {
    var row := Row(v);
    match ec
    case L => row.0
    case M => row.1
    case Q => row.2
    case H => row.3
  }

  /** Every capacity lies between that of 1-H and that of 40-L. */
  lemma DataSizeBounds(v: Version, ec: ErrorCorrection)
    ensures 9 <= DataSize(v, ec) <= 2956
  {
  }

  /** One version up holds strictly more data at the same level. */
  lemma DataSizeStep(v: Version, ec: ErrorCorrection)
    requires v < 40
    ensures DataSize(v, ec) < DataSize(v + 1, ec)
  {
  }

  /** Capacity strictly increases with the version. */
  lemma {:induction false} DataSizeIncreasing(v: Version, u: Version, ec: ErrorCorrection)
    requires v < u
    ensures DataSize(v, ec) < DataSize(u, ec)
    decreases u - v
  {
    DataSizeStep(v, ec);
    if v + 1 < u {
      DataSizeIncreasing(v + 1, u, ec);
    }
  }

  /** Within a version, stronger error correction leaves fewer data codewords. */
  lemma DataSizeLevels(v: Version)
    ensures DataSize(v, L) > DataSize(v, M) > DataSize(v, Q) > DataSize(v, H)
  {
  }

  /**
   * `fit_version`: the macro's `match count { ..=c1 => Some(V1), ..., _ => None }`,
   * whose first covering arm wins.
   */
  function FitVersion(count: nat, ec: ErrorCorrection): (r: Option<Version>)
    ensures r.Some? ==> count <= DataSize(r.value, ec)
    ensures r.Some? ==> forall u: Version :: u < r.value ==> DataSize(u, ec) < count
    ensures r.None? ==> forall u: Version :: DataSize(u, ec) < count
  {
    FitFrom(count, ec, 1)
  }

  /** The arms of that match from version `v` on. */
  function FitFrom(count: nat, ec: ErrorCorrection, v: Version): (r: Option<Version>)
    ensures r.Some? ==> v <= r.value && count <= DataSize(r.value, ec)
    ensures r.Some? ==> forall u: Version :: v <= u < r.value ==> DataSize(u, ec) < count
    ensures r.None? ==> forall u: Version :: v <= u ==> DataSize(u, ec) < count
    decreases 40 - v
  {
    if count <= DataSize(v, ec) then Some(v)
    else if v == 40 then None
    else FitFrom(count, ec, v + 1)
  }

  /** The lookup fails exactly when the count exceeds the capacity of version 40. */
  lemma FitVersionNone(count: nat, ec: ErrorCorrection)
    ensures FitVersion(count, ec).None? <==> count > DataSize(40, ec)
  {
    var r := FitVersion(count, ec);
    if r.Some? {
      CapacityAtMostTop(r.value, ec);
    }
  }

  /** No version holds more than version 40. */
  lemma CapacityAtMostTop(v: Version, ec: ErrorCorrection)
    ensures DataSize(v, ec) <= DataSize(40, ec)
  {
    if v < 40 {
      DataSizeIncreasing(v, 40, ec);
    }
  }

  /** So the lookup fails past 2956, 2334, 1666 and 1276 codewords at L, M, Q and H. */
  lemma FitVersionLimits(count: nat)
    ensures FitVersion(count, L).None? <==> count > 2956
    ensures FitVersion(count, M).None? <==> count > 2334
    ensures FitVersion(count, Q).None? <==> count > 1666
    ensures FitVersion(count, H).None? <==> count > 1276
  {
    assert DataSize(40, L) == 2956 && DataSize(40, M) == 2334;
    assert DataSize(40, Q) == 1666 && DataSize(40, H) == 1276;
    FitVersionNone(count, L);
    FitVersionNone(count, M);
    FitVersionNone(count, Q);
    FitVersionNone(count, H);
  }

  /** The lookup gives the smallest version that holds `count`. */
  lemma FitVersionLeast(count: nat, ec: ErrorCorrection, v: Version)
    requires count <= DataSize(v, ec)
    ensures FitVersion(count, ec).Some? && FitVersion(count, ec).value <= v
  {
  }

  // ---------------------------------------------------------------------
  // Mode analysis.

  predicate IsDigit(b: Packing.Byte)
  {
    '0' as int <= b <= '9' as int
  }

  /** The non-digit symbols of the alphanumeric alphabet: `A-Z` and ` $%*+-./:`. */
  predicate IsLetterOrSymbol(b: Packing.Byte)
  {
    ('A' as int <= b <= 'Z' as int)
    || b == ' ' as int || b == '$' as int || b == '%' as int || b == '*' as int
    || b == '+' as int || b == '-' as int || b == '.' as int || b == '/' as int
    || b == ':' as int
  }

  predicate IsAlphanumeric(b: Packing.Byte)
  {
    IsDigit(b) || IsLetterOrSymbol(b)
  }

  /** The narrowest mode that can carry the single byte `b`. */
  function ModeOfByte(b: Packing.Byte): (r: EncodingMode)
  {
    if IsDigit(b) then Numeric
    else if IsLetterOrSymbol(b) then Alphanumeric
    else Byte
  }

  /** Modes ordered by the set of bytes they carry. */
  function Rank(m: EncodingMode): nat
  {
    match m
    case Numeric => 0
    case Alphanumeric => 1
    case Byte => 2
  }

  /** The narrower of two modes that carries everything both carry. */
  function Join(a: EncodingMode, b: EncodingMode): (r: EncodingMode)
    ensures r == a || r == b
    ensures Rank(a) <= Rank(r) && Rank(b) <= Rank(r)
  {
    if Rank(a) < Rank(b) then b else a
  }

  /** Joining modes is a semilattice with Numeric as its bottom and Byte as its top. */
  lemma JoinLaws(a: EncodingMode, b: EncodingMode, c: EncodingMode)
    ensures Join(a, b) == Join(b, a)
    ensures Join(Join(a, b), c) == Join(a, Join(b, c))
    ensures Join(a, a) == a
    ensures Join(Numeric, a) == a && Join(a, Byte) == Byte
  {
  }

  /** The mode of a string: the join of the modes of its bytes. */
  function ModeOf(s: seq<Packing.Byte>): (r: EncodingMode)
  {
    if s == [] then Numeric else Join(ModeOf(s[..|s| - 1]), ModeOfByte(s[|s| - 1]))
  }

  /** Numeric exactly when every byte is a digit; in particular for the empty string. */
  lemma {:induction false} ModeOfNumeric(s: seq<Packing.Byte>)
    ensures ModeOf(s) == Numeric <==> forall i :: 0 <= i < |s| ==> IsDigit(s[i])
  {
    if s != [] {
      var p := s[..|s| - 1];
      ModeOfNumeric(p);
      assert forall i :: 0 <= i < |p| ==> p[i] == s[i];
    }
  }

  /** Byte exactly when some byte lies outside the alphanumeric alphabet. */
  lemma {:induction false} ModeOfByteMode(s: seq<Packing.Byte>)
    ensures ModeOf(s) == Byte <==> exists i :: 0 <= i < |s| && !IsAlphanumeric(s[i])
  {
    if s != [] {
      var p := s[..|s| - 1];
      ModeOfByteMode(p);
      assert forall i :: 0 <= i < |p| ==> p[i] == s[i];
      if !IsAlphanumeric(s[|s| - 1]) {
        assert !IsAlphanumeric(s[|s| - 1]);
      }
    }
  }

  /** Alphanumeric exactly when every byte is alphanumeric and some byte is not a digit. */
  lemma ModeOfAlphanumeric(s: seq<Packing.Byte>)
    ensures ModeOf(s) == Alphanumeric <==>
      (forall i :: 0 <= i < |s| ==> IsAlphanumeric(s[i])) && exists i :: 0 <= i < |s| && !IsDigit(s[i])
  {
    ModeOfNumeric(s);
    ModeOfByteMode(s);
  }

  /** The mode of a concatenation is the join of the modes: a wider mode never narrows again. */
  lemma {:induction false} ModeOfAppend(a: seq<Packing.Byte>, b: seq<Packing.Byte>)
    ensures ModeOf(a + b) == Join(ModeOf(a), ModeOf(b))
    decreases |b|
  {
    if b == [] {
      assert a + b == a;
    } else {
      var ab, p := a + b, b[..|b| - 1];
      assert ab[..|ab| - 1] == a + p;
      ModeOfAppend(a, p);
    }
  }

  /**
   * `analyze_string`: one left-to-right scan that starts at Numeric, moves
   * to Alphanumeric on a letter or symbol and returns Byte at the first
   * byte outside the alphabet.
   */
  method AnalyzeString(s: seq<Packing.Byte>) returns (mode: EncodingMode)
    ensures mode == ModeOf(s)
  {
    mode := Numeric;
    var i := 0;
    while i < |s|
      invariant 0 <= i <= |s|
      invariant mode == ModeOf(s[..i]) && mode != Byte
    {
      assert s[..i + 1][..i] == s[..i];
      var b := s[i];
      if IsDigit(b) {
      } else if IsLetterOrSymbol(b) {
        mode := Alphanumeric;
      } else {
        ModeOfByteMode(s);
        return Byte;
      }
      i := i + 1;
    }
    assert s[..i] == s;
  }
}
