/**
 * The bit-level specification of the codeword stream: a growing sequence of
 * bits, most significant bit first, packed into bytes eight at a time with
 * the last byte zero-filled on the right. Also the Rust integer operations
 * (`<<` on `u16`, `>>`, `as u8`, `|` on `u8`) that the accumulator uses,
 * written out on unbounded integers.
 *
 * Shifts are defined by repeated doubling and halving, so that every proof
 * about them is linear arithmetic.
 */
module Packing {

  type Byte = x: int | 0 <= x < 256

  function Pow2(n: nat): (r: nat)
    ensures r >= 1
  {
    if n == 0 then 1 else 2 * Pow2(n - 1)
  }

  /** `v` moved up by `k` bits, v * 2^k. */
  function Shl(v: nat, k: nat): nat
  {
    if k == 0 then v else 2 * Shl(v, k - 1)
  }

  /** `v >> k`: v / 2^k. */
  function Shr(v: nat, k: nat): nat
  {
    if k == 0 then v else Shr(v / 2, k - 1)
  }

  /** The low `k` bits of `v`: v % 2^k. */
  function Low(v: nat, k: nat): (r: nat)
    ensures r < Pow2(k)
  {
    if k == 0 then 0 else 2 * Low(v / 2, k - 1) + v % 2
  }

  /** Big-endian value of a bit sequence: the first bit is the most significant. */
  function Value(bits: seq<bool>): (r: nat)
    ensures r < Pow2(|bits|)
  {
    if bits == [] then 0
    else 2 * Value(bits[..|bits| - 1]) + (if bits[|bits| - 1] then 1 else 0)
  }

  /** The low `width` bits of `v`, most significant first. */
  function BitsOf(v: nat, width: nat): (r: seq<bool>)
    ensures |r| == width
  {
    if width == 0 then [] else BitsOf(v / 2, width - 1) + [v % 2 == 1]
  }

  function Zeros(n: nat): (r: seq<bool>)
    ensures |r| == n
  {
    seq(n, _ => false)
  }

  /** Number of zero bits that complete a stream of `len` bits to a byte boundary. */
  function FillBits(len: nat): (r: nat)
    ensures r < 8 && (len + r) % 8 == 0
  {
    if len % 8 == 0 then 0 else 8 - len % 8
  }

  /** Length of the byte-aligned prefix of a stream of `len` bits. */
  function Whole(len: nat): (r: nat)
    ensures r <= len && r % 8 == 0 && len - r < 8
  {
    len - len % 8
  }

  /** One codeword made of at most eight bits, left-aligned, free bits zero. */
  function Chunk(bits: seq<bool>): (r: Byte)
    requires |bits| <= 8
  {
    ShlBound(Value(bits), |bits|, 8 - |bits|, 8);
    assert Pow2(8) == 256;
    Shl(Value(bits), 8 - |bits|)
  }

  /** MSB-first packing of a bit sequence into bytes, the last one zero-filled. */
  function Pack(bits: seq<bool>): (r: seq<Byte>)
    ensures |r| == (|bits| + 7) / 8
    decreases |bits|
  {
    if |bits| == 0 then []
    else if |bits| <= 8 then [Chunk(bits)]
    else [Chunk(bits[..8])] + Pack(bits[8..])
  }

  /** The bits of a byte sequence, eight per byte, most significant first. */
  function Unpack(bytes: seq<Byte>): (r: seq<bool>)
    ensures |r| == 8 * |bytes|
  {
    if bytes == [] then [] else BitsOf(bytes[0], 8) + Unpack(bytes[1..])
  }

  // ---------------------------------------------------------------------
  // Rust's fixed-width operations, as the accumulator writes them.

  /** `x << k` on a `u16`: the bits shifted past bit 15 are lost. */
  function Shl16(x: nat, k: nat): (r: nat)
    requires k < 16
  {
    Low(Shl(x, k), 16)
  }

  /** `x as u8`: truncation to the low eight bits. */
  function AsU8(x: nat): (r: Byte)
  {
    x % 256
  }

  /** Bitwise or of the low `k` bits of `a` and `b`. */
  function BitOr(a: nat, b: nat, k: nat): (r: nat)
    ensures r < Pow2(k)
  {
    if k == 0 then 0
    else 2 * BitOr(a / 2, b / 2, k - 1) + (if a % 2 == 1 || b % 2 == 1 then 1 else 0)
  }

  /** `a | b` on two `u8` values. */
  function Or8(a: Byte, b: Byte): (r: Byte)
  {
    BitOr(a, b, 8)
  }

  // ---------------------------------------------------------------------
  // Shifts.

  lemma AsU8Small(x: nat)
    requires x < 256
    ensures AsU8(x) == x
  {
  }

  lemma {:induction false} Pow2Mono(a: nat, b: nat)
    requires a <= b
    ensures Pow2(a) <= Pow2(b)
    decreases b
  {
    if a < b {
      Pow2Mono(a, b - 1);
    }
  }

  lemma Pow2Byte()
    ensures Pow2(8) == 256
  {
    assert Pow2(4) == 16;
  }

  /** The powers of two that bound the segment encoders' fields. */
  lemma Pow2Widths()
    ensures Pow2(4) == 16 && Pow2(6) == 64 && Pow2(7) == 128 && Pow2(8) == 256
    ensures Pow2(9) == 512 && Pow2(10) == 1024 && Pow2(11) == 2048
  {
    Pow2Byte();
  }

  /** The powers of two that bound the wider character-count fields. */
  lemma Pow2Counts()
    ensures Pow2(12) == 4096 && Pow2(13) == 8192 && Pow2(14) == 16384 && Pow2(16) == 65536
  {
    Pow2Widths();
    assert Pow2(14) == 16384;
  }

  lemma {:induction false} ShlZero(k: nat)
    ensures Shl(0, k) == 0
  {
    if k > 0 {
      ShlZero(k - 1);
    }
  }

  /** Moving up by `a` and then by `b` moves up by `a + b`. */
  lemma {:induction false} ShlAdd(v: nat, a: nat, b: nat)
    ensures Shl(Shl(v, a), b) == Shl(v, a + b)
  {
    if b > 0 {
      ShlAdd(v, a, b - 1);
    }
  }

  lemma {:induction false} ShlPlus(x: nat, y: nat, k: nat)
    ensures Shl(x + y, k) == Shl(x, k) + Shl(y, k)
  {
    if k > 0 {
      ShlPlus(x, y, k - 1);
    }
  }

  /** A value of `n` bits moved up by `k` has `n + k` bits. */
  lemma {:induction false} ShlBound(v: nat, n: nat, k: nat, m: nat)
    requires v < Pow2(n) && m == n + k
    ensures Shl(v, k) < Pow2(m)
  {
    if k > 0 {
      ShlBound(v, n, k - 1, m - 1);
    }
  }

  /** A value of `n + k` bits moved down by `k` has `n` bits. */
  lemma {:induction false} ShrBound(v: nat, n: nat, k: nat, m: nat)
    requires v < Pow2(m) && m == n + k
    ensures Shr(v, k) < Pow2(n)
  {
    if k > 0 {
      ShrBound(v / 2, n, k - 1, m - 1);
    }
  }

  /** Every number is its high part moved up by `k` plus its low `k` bits. */
  lemma {:induction false} Split(v: nat, k: nat)
    ensures v == Shl(Shr(v, k), k) + Low(v, k)
  {
    if k > 0 {
      Split(v / 2, k - 1);
    }
  }

  /** The high part and the low `k` bits are unique (division with remainder by 2^k). */
  lemma {:induction false} Unique(v: nat, q: nat, r: nat, k: nat)
    requires v == Shl(q, k) + r && r < Pow2(k)
    ensures Shr(v, k) == q && Low(v, k) == r
  {
    if k > 0 {
      assert v / 2 == Shl(q, k - 1) + r / 2 && v % 2 == r % 2;
      Unique(v / 2, q, r / 2, k - 1);
    }
  }

  lemma LowSmall(v: nat, k: nat)
    requires v < Pow2(k)
    ensures Low(v, k) == v
  {
    ShlZero(k);
    Unique(v, 0, v, k);
  }

  /** Taking the low `a` bits of the low `a + b` bits. */
  lemma LowLow(v: nat, a: nat, n: nat)
    requires a <= n
    ensures Low(Low(v, n), a) == Low(v, a)
  {
    var l := Low(v, n);
    var hv, hl, r := Shr(v, n), Shr(l, a), Low(l, a);
    Split(v, n);
    Split(l, a);
    LowLowRegroup(v, hv, hl, r, a, n);
    Unique(v, Shl(hv, n - a) + hl, r, a);
  }

  lemma LowLowRegroup(v: nat, hv: nat, hl: nat, r: nat, a: nat, n: nat)
    requires a <= n && v == Shl(hv, n) + (Shl(hl, a) + r)
    ensures v == Shl(Shl(hv, n - a) + hl, a) + r
  {
    ShlConcat(hv, hl, n - a, a, n);
  }

  /** Dropping the low `a` of the low `a + b` bits leaves `b` bits of `v >> a`. */
  lemma {:induction false} ShrLow(v: nat, a: nat, b: nat, n: nat)
    requires n == a + b
    ensures Shr(Low(v, n), a) == Low(Shr(v, a), b)
  {
    if a > 0 {
      var l := Low(v, n);
      assert l == 2 * Low(v / 2, n - 1) + v % 2;
      assert l / 2 == Low(v / 2, n - 1);
      ShrLow(v / 2, a - 1, b, n - 1);
    }
  }

  lemma LowByte(x: nat)
    ensures Low(x, 8) == x % 256
  {
    var q := x / 256;
    assert Shl(q, 8) == 256 * q by {
      assert Shl(q, 1) == 2 * q;
      assert Shl(q, 2) == 4 * q;
      assert Shl(q, 3) == 8 * q;
      assert Shl(q, 4) == 16 * q;
      assert Shl(q, 5) == 32 * q;
      assert Shl(q, 6) == 64 * q;
      assert Shl(q, 7) == 128 * q;
    }
    Unique(x, q, x % 256, 8);
  }

  /** `(x << k) as u8` keeps the low `8 - k` bits of `x`, moved up by `k`. */
  lemma ShlToByte(x: nat, k: nat, j: nat)
    requires k <= 8 && j == 8 - k
    ensures AsU8(Shl16(x, k)) == Shl(Low(x, j), k)
  {
    var q, r := Shr(x, j), Low(x, j);
    var y := Shl(x, k);
    assert y == Shl(q, 8) + Shl(r, k) by {
      calc {
        y;
        { Split(x, j); }
        Shl(Shl(q, j) + r, k);
        { ShlConcat(q, r, j, k, 8); }
        Shl(q, 8) + Shl(r, k);
      }
    }
    ShlBound(r, j, k, 8);
    Unique(y, q, Shl(r, k), 8);
    LowLow(y, 8, 16);
    LowByte(Low(y, 16));
  }

  /** Or of two values whose set bits do not overlap is their sum. */
  lemma {:induction false} OrDisjoint(c: nat, j: nat, b: nat, k: nat)
    requires b < Pow2(j)
    requires Shl(c, j) < Pow2(k) && b < Pow2(k)
    ensures BitOr(Shl(c, j), b, k) == Shl(c, j) + b
  {
    if k == 0 {
    } else if j == 0 {
      OrZero(c, k);
    } else {
      var a := Shl(c, j);
      assert a == 2 * Shl(c, j - 1);
      assert a / 2 == Shl(c, j - 1) && a % 2 == 0;
      OrDisjoint(c, j - 1, b / 2, k - 1);
      assert BitOr(a, b, k) == 2 * BitOr(a / 2, b / 2, k - 1) + b % 2;
    }
  }

  lemma {:induction false} OrZero(c: nat, k: nat)
    requires c < Pow2(k)
    ensures BitOr(c, 0, k) == c
  {
    if k > 0 {
      OrZero(c / 2, k - 1);
      assert BitOr(c, 0, k) == 2 * BitOr(c / 2, 0, k - 1) + c % 2;
    }
  }

  // ---------------------------------------------------------------------
  // Values and bit sequences.

  lemma {:induction false} ValueAppend(a: seq<bool>, b: seq<bool>)
    ensures Value(a + b) == Shl(Value(a), |b|) + Value(b)
    decreases |b|
  {
    if b == [] {
      assert a + b == a;
    } else {
      var b' := b[..|b| - 1];
      assert (a + b)[..|a + b| - 1] == a + b';
      ValueAppend(a, b');
    }
  }

  /** Splitting a bit sequence at `k` splits its value at bit `|x| - k`. */
  lemma ValueSplit(x: seq<bool>, k: nat, m: nat)
    requires k <= |x| && m == |x| - k
    ensures Value(x[..k]) == Shr(Value(x), m)
    ensures Value(x[k..]) == Low(Value(x), m)
  {
    assert x == x[..k] + x[k..];
    ValueAppend(x[..k], x[k..]);
    Unique(Value(x), Value(x[..k]), Value(x[k..]), m);
  }

  lemma {:induction false} ValueOfBitsOf(v: nat, width: nat)
    ensures Value(BitsOf(v, width)) == Low(v, width)
  {
    if width > 0 {
      ValueOfBitsOf(v / 2, width - 1);
      assert BitsOf(v, width)[..width - 1] == BitsOf(v / 2, width - 1);
    }
  }

  lemma ValueOfBitsOfSmall(v: nat, width: nat)
    requires v < Pow2(width)
    ensures Value(BitsOf(v, width)) == v
  {
    ValueOfBitsOf(v, width);
    LowSmall(v, width);
  }

  lemma {:induction false} BitsOfValue(bits: seq<bool>)
    ensures BitsOf(Value(bits), |bits|) == bits
  {
    if bits != [] {
      var init := bits[..|bits| - 1];
      assert Value(bits) / 2 == Value(init);
      BitsOfValue(init);
    }
  }

  lemma {:induction false} ValueZeros(n: nat)
    ensures Value(Zeros(n)) == 0
  {
    if n > 0 {
      assert Zeros(n)[..n - 1] == Zeros(n - 1);
      ValueZeros(n - 1);
    }
  }

  // ---------------------------------------------------------------------
  // Chunks: the byte made of a partial run of bits.

  /** A chunk is its bits followed by zero bits up to eight. */
  lemma ChunkPadded(bits: seq<bool>, k: nat)
    requires |bits| <= 8 && k == 8 - |bits|
    ensures Chunk(bits) == Value(bits + Zeros(k))
  {
    var z := Zeros(k);
    calc {
      Value(bits + z);
      { ValueAppend(bits, z); }
      Shl(Value(bits), k) + Value(z);
      { ValueZeros(k); }
      Shl(Value(bits), k);
      { ChunkIs(bits, k); }
      Chunk(bits);
    }
  }

  /** A chunk of `k` bits has its low `8 - k` bits zero and the bits' value above them. */
  lemma ChunkFree(bits: seq<bool>, k: nat)
    requires |bits| <= 8 && k == 8 - |bits|
    ensures Low(Chunk(bits), k) == 0
    ensures Shr(Chunk(bits), k) == Value(bits)
  {
    Unique(Chunk(bits), Value(bits), 0, k);
  }

  /** A chunk of exactly eight bits is their value. */
  lemma ChunkWhole(bits: seq<bool>)
    requires |bits| == 8
    ensures Chunk(bits) == Value(bits)
  {
  }

  /** Appending to a partial byte fills its free bits from the top. */
  lemma ChunkAppend(t: seq<bool>, w: seq<bool>, r: nat)
    requires |t| + |w| <= 8 && r == 8 - |t| - |w|
    ensures Chunk(t + w) == Chunk(t) + Shl(Value(w), r)
  {
    var tw := t + w;
    var tv, wv, n, k := Value(t), Value(w), |w|, 8 - |t|;
    calc {
      Chunk(tw);
      { ChunkIs(tw, r); }
      Shl(Value(tw), r);
      { ValueAppend(t, w); }
      Shl(Shl(tv, n) + wv, r);
      { ShlConcat(tv, wv, n, r, k); }
      Shl(tv, k) + Shl(wv, r);
      { ChunkIs(t, k); }
      Chunk(t) + Shl(wv, r);
    }
  }

  lemma ChunkIs(bits: seq<bool>, k: nat)
    requires |bits| <= 8 && k == 8 - |bits|
    ensures Chunk(bits) == Shl(Value(bits), k)
  {
  }

  /** Appending `n` bits of `wv` to `tv`, then moving up by `r`. */
  lemma ShlConcat(tv: nat, wv: nat, n: nat, r: nat, k: nat)
    requires k == n + r
    ensures Shl(Shl(tv, n) + wv, r) == Shl(tv, k) + Shl(wv, r)
  {
    ShlPlus(Shl(tv, n), wv, r);
    ShlAdd(tv, n, r);
  }

  /** Or-ing a value into the free bits of a partial byte adds it. */
  lemma ChunkOr(t: seq<bool>, b: Byte, k: nat)
    requires |t| <= 8 && k == 8 - |t| && b < Pow2(k)
    ensures Or8(Chunk(t), b) == Chunk(t) + b
  {
    ShlBound(Value(t), |t|, k, 8);
    Pow2Mono(k, 8);
    OrDisjoint(Value(t), k, b, 8);
  }

  // ---------------------------------------------------------------------
  // Packing.

  lemma {:induction false} PackAppendAligned(a: seq<bool>, b: seq<bool>)
    requires |a| % 8 == 0
    ensures Pack(a + b) == Pack(a) + Pack(b)
    decreases |a|
  {
    if |a| == 0 {
      assert a + b == b;
    } else {
      var ab, rest := a + b, a[8..];
      assert ab[..8] == a[..8];
      assert ab[8..] == rest + b;
      AlignedRest(|a|, |rest|);
      calc {
        Pack(ab);
        { PackHead(ab); }
        [Chunk(a[..8])] + Pack(rest + b);
        { PackAppendAligned(rest, b); }
        [Chunk(a[..8])] + (Pack(rest) + Pack(b));
        { PackHead(a); }
        Pack(a) + Pack(b);
      }
    }
  }

  lemma AlignedRest(n: nat, m: nat)
    requires n % 8 == 0 && n > 0 && m == n - 8
    ensures m % 8 == 0
  {
  }

  /** A stream of at least eight bits packs to its first byte followed by the rest. */
  lemma PackHead(x: seq<bool>)
    requires |x| >= 8
    ensures Pack(x) == [Chunk(x[..8])] + Pack(x[8..])
  {
    if |x| == 8 {
      assert x[..8] == x;
      assert Pack(x[8..]) == [];
    }
  }

  /** The packing of a stream is that of its whole bytes followed by that of its partial last byte. */
  lemma PackLast(bits: seq<bool>)
    ensures Pack(bits) == Pack(bits[..Whole(|bits|)]) + Pack(bits[Whole(|bits|)..])
  {
    var n := Whole(|bits|);
    assert bits == bits[..n] + bits[n..];
    PackAppendAligned(bits[..n], bits[n..]);
  }

  /** Appending to a stream repacks only its partial last byte and what follows. */
  lemma PackExtend(bits: seq<bool>, w: seq<bool>)
    ensures Pack(bits + w) == Pack(bits[..Whole(|bits|)]) + Pack(bits[Whole(|bits|)..] + w)
  {
    var n := Whole(|bits|);
    assert bits + w == bits[..n] + (bits[n..] + w);
    PackAppendAligned(bits[..n], bits[n..] + w);
  }

  /** A partially filled last byte has its free low bits zero. */
  lemma PackLastFree(bits: seq<bool>, k: nat)
    requires |bits| % 8 != 0 && k == 8 - |bits| % 8
    ensures var p := Pack(bits);
      |p| > 0 && Low(p[|p| - 1], k) == 0
  {
    var n := Whole(|bits|);
    PackLast(bits);
    assert Pack(bits[n..]) == [Chunk(bits[n..])];
    ChunkFree(bits[n..], k);
  }

  /** Zero bits up to the byte boundary do not change the packing. */
  lemma PackFill(bits: seq<bool>, z: seq<bool>)
    requires z == Zeros(FillBits(|bits|))
    ensures Pack(bits + z) == Pack(bits)
  {
    var n := Whole(|bits|);
    PackLast(bits);
    PackExtend(bits, z);
    if n != |bits| {
      ChunkFill(bits[n..], z);
    } else {
      assert bits[n..] + z == bits[n..];
    }
  }

  lemma ChunkFill(tail: seq<bool>, z: seq<bool>)
    requires 0 < |tail| < 8 && z == Zeros(8 - |tail|)
    ensures Pack(tail + z) == Pack(tail)
  {
    var tz := tail + z;
    assert Chunk(tz) == Value(tz);
    ChunkPadded(tail, |z|);
    assert Pack(tz) == [Chunk(tz)];
  }

  /** A byte-aligned stream followed by a whole byte packs to that byte appended. */
  lemma PackByte(bits: seq<bool>, d: Byte)
    requires |bits| % 8 == 0
    ensures Pack(bits + BitsOf(d, 8)) == Pack(bits) + [d]
  {
    var w := BitsOf(d, 8);
    PackAppendAligned(bits, w);
    Pow2Byte();
    ValueOfBitsOfSmall(d, 8);
    assert Pack(w) == [Chunk(w)];
  }

  /** Unpacking a packed stream gives the stream back, zero-filled to a byte boundary. */
  lemma {:induction false} UnpackPack(bits: seq<bool>)
    ensures Unpack(Pack(bits)) == bits + Zeros(FillBits(|bits|))
    decreases |bits|
  {
    if |bits| == 0 {
      assert bits + Zeros(0) == [];
    } else if |bits| <= 8 {
      UnpackChunk(bits, 8 - |bits|);
    } else {
      var head, tail := bits[..8], bits[8..];
      var c, z := Chunk(head), Zeros(FillBits(|bits|));
      assert Pack(bits) == [c] + Pack(tail);
      UnpackCons(c, Pack(tail));
      BitsOfValue(head);
      assert BitsOf(c, 8) == head;
      UnpackPack(tail);
      FillBitsByte(|bits|, |tail|);
      assert Unpack(Pack(tail)) == tail + z;
      assert bits == head + tail;
      assert head + (tail + z) == bits + z;
    }
  }

  lemma FillBitsByte(n: nat, m: nat)
    requires n == m + 8
    ensures FillBits(n) == FillBits(m)
  {
    assert n % 8 == m % 8;
  }

  lemma UnpackChunk(bits: seq<bool>, k: nat)
    requires 0 < |bits| <= 8 && k == 8 - |bits|
    ensures Unpack([Chunk(bits)]) == bits + Zeros(FillBits(|bits|))
  {
    var x := bits + Zeros(k);
    ChunkPadded(bits, k);
    BitsOfValue(x);
    assert Unpack([Chunk(bits)]) == BitsOf(Chunk(bits), 8) + Unpack([]);
    assert FillBits(|bits|) == k;
  }

  lemma UnpackCons(b: Byte, rest: seq<Byte>)
    ensures Unpack([b] + rest) == BitsOf(b, 8) + Unpack(rest)
  {
    assert ([b] + rest)[1..] == rest;
  }

  /** Unpacking distributes over concatenation. */
  lemma {:induction false} UnpackAppend(a: seq<Byte>, b: seq<Byte>)
    ensures Unpack(a + b) == Unpack(a) + Unpack(b)
    decreases |a|
  {
    if a == [] {
      assert a + b == b;
    } else {
      assert (a + b)[1..] == a[1..] + b;
      UnpackAppend(a[1..], b);
    }
  }

  /** Whole bytes unpacked and packed again are the same bytes. */
  lemma {:induction false} PackUnpack(s: seq<Byte>)
    ensures Pack(Unpack(s)) == s
  {
    if s != [] {
      var w, rest := BitsOf(s[0], 8), s[1..];
      PackAppendAligned(w, Unpack(rest));
      assert [] + w == w;
      PackByte([], s[0]);
      PackUnpack(rest);
      assert s == [s[0]] + rest;
    }
  }

  // ---------------------------------------------------------------------
  // Zero runs: the terminator and the fill to a byte boundary.

  lemma ZerosConcat(bits: seq<bool>, a: nat, b: nat, c: nat)
    requires c == a + b
    ensures bits + Zeros(a) + Zeros(b) == bits + Zeros(c)
  {
  }

  /** One to eight zero bits make one zero byte. */
  lemma PackZeros(j: nat)
    requires 1 <= j <= 8
    ensures Pack(Zeros(j)) == [0]
  {
    var z := Zeros(j);
    assert Pack(z) == [Chunk(z)];
    ChunkIs(z, 8 - j);
    ValueZeros(j);
    ShlZero(8 - j);
  }

  lemma FillBitsAdd(n: nat, k: nat, m: nat)
    requires k <= FillBits(n) && m == n + k
    ensures FillBits(m) == FillBits(n) - k
  {
  }

  /** Zeros that stay within the free bits of the last byte leave the packing unchanged. */
  lemma PackZerosWithin(bits: seq<bool>, k: nat)
    requires k <= FillBits(|bits|)
    ensures Pack(bits + Zeros(k)) == Pack(bits)
  {
    var f := FillBits(|bits|);
    var x := bits + Zeros(k);
    FillBitsAdd(|bits|, k, |x|);
    PackFillTwice(bits, x, Zeros(f - k), Zeros(f));
    ZerosConcat(bits, k, f - k, f);
    assert x + Zeros(f - k) == bits + Zeros(f);
  }

  lemma PackFillTwice(bits: seq<bool>, x: seq<bool>, y: seq<bool>, z: seq<bool>)
    requires y == Zeros(FillBits(|x|)) && z == Zeros(FillBits(|bits|))
    ensures Pack(x + y) == Pack(x) && Pack(bits + z) == Pack(bits)
  {
    PackFill(x, y);
    PackFill(bits, z);
  }

  /** Zeros that run past the free bits, by at most a byte, add one zero byte. */
  lemma PackZerosPast(bits: seq<bool>, k: nat)
    requires FillBits(|bits|) < k <= FillBits(|bits|) + 8
    ensures Pack(bits + Zeros(k)) == Pack(bits) + [0]
  {
    var f := FillBits(|bits|);
    var z, y := Zeros(f), Zeros(k - f);
    PackFillThenZeros(bits, z, y);
    ZerosConcat(bits, f, k - f, k);
    assert bits + z + y == bits + Zeros(k);
  }

  lemma PackFillThenZeros(bits: seq<bool>, z: seq<bool>, y: seq<bool>)
    requires z == Zeros(FillBits(|bits|)) && 1 <= |y| <= 8 && y == Zeros(|y|)
    ensures Pack(bits + z + y) == Pack(bits) + [0]
  {
    PackFill(bits, z);
    PackZeros(|y|);
    PackAppendAligned(bits + z, y);
  }

  // ---------------------------------------------------------------------
  // What appending bits does to the codewords already written.

  /** Appending bits leaves every complete byte of the stream as it was. */
  lemma AppendKeepsWholeBytes(bits: seq<bool>, w: seq<bool>)
    ensures |bits| / 8 <= |Pack(bits)| && |bits| / 8 <= |Pack(bits + w)|
    ensures Pack(bits + w)[..|bits| / 8] == Pack(bits)[..|bits| / 8]
  {
    var n := Whole(|bits|);
    PackLast(bits);
    PackExtend(bits, w);
    assert |Pack(bits[..n])| == |bits| / 8;
  }

  /** The leading `|t|` bits of a chunk that starts with `t` are `t`. */
  lemma ChunkKeepsPrefix(t: seq<bool>, y: seq<bool>, k: nat)
    requires 0 < |t| <= |y| <= 8 && y[..|t|] == t && k == 8 - |t|
    ensures Shr(Chunk(y), k) == Value(t)
  {
    var r := y[|t|..];
    assert y == t + r;
    ChunkSplit(t, r, y, 8 - |y|);
    ShlBound(Value(r), |r|, 8 - |y|, k);
    Unique(Chunk(y), Value(t), Shl(Value(r), 8 - |y|), k);
  }

  lemma ChunkSplit(t: seq<bool>, r: seq<bool>, y: seq<bool>, j: nat)
    requires y == t + r && |y| <= 8 && j == 8 - |y|
    ensures Chunk(y) == Shl(Value(t), |r| + j) + Shl(Value(r), j)
  {
    ValueAppend(t, r);
    ChunkIs(y, j);
    ShlPlus(Shl(Value(t), |r|), Value(r), j);
    ShlAdd(Value(t), |r|, j);
  }

  /** Appending bits keeps the used high bits of a partial last byte; only its free low bits change. */
  lemma AppendKeepsUsedBits(bits: seq<bool>, w: seq<bool>, k: nat)
    requires |bits| % 8 != 0 && k == 8 - |bits| % 8
    ensures |bits| / 8 < |Pack(bits)| && |bits| / 8 < |Pack(bits + w)|
    ensures Shr(Pack(bits + w)[|bits| / 8], k) == Shr(Pack(bits)[|bits| / 8], k)
  {
    var n := Whole(|bits|);
    var t := bits[n..];
    var x := t + w;
    PackLast(bits);
    PackExtend(bits, w);
    assert |Pack(bits[..n])| == |bits| / 8;
    assert Pack(t) == [Chunk(t)];
    ChunkFree(t, k);
    var y := if |x| <= 8 then x else x[..8];
    if |x| > 8 {
      PackHead(x);
    }
    assert Pack(x)[0] == Chunk(y);
    assert y[..|t|] == t;
    ChunkKeepsPrefix(t, y, k);
  }
}
