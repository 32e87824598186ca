/**
 * The bit accumulator `Bytes` of src/byte_stream.rs: a byte vector and
 * `shift`, the number of bits already used in its last byte. The ghost
 * field `bits` is the whole stream pushed so far; the object invariant
 * says the bytes are exactly its MSB-first, zero-filled packing.
 */
module ByteStream {
  import opened Packing

  // ---------------------------------------------------------------------
  // What each arm of `push` appends, as a fact about packing.
  // `t` is the partial last byte (the `shift` bits already used in it) and
  // `BitsOf(data, width)` the bits being pushed. Shift amounts are passed
  // as parameters, tied to `|t|` and `width` by the preconditions.

  /** Arm `(0, 0..=8)`: on a byte boundary, a value of at most 8 bits is one new byte. */
  lemma ArmFreshByte(data: nat, width: nat, k: nat)
    requires 1 <= width <= 8 && data < Pow2(width) && k == 8 - width
    ensures Pack(BitsOf(data, width)) == [AsU8(Shl16(data, k))]
  {
    var w := BitsOf(data, width);
    assert Pack(w) == [Chunk(w)];
    calc {
      Chunk(w);
      { ChunkIs(w, k); }
      Shl(Value(w), k);
      { ValueOfBitsOfSmall(data, width); }
      Shl(data, k);
      { LowSmall(data, width); }
      Shl(Low(data, width), k);
      { ShlToByte(data, k, width); }
      AsU8(Shl16(data, k));
    }
  }

  /** Arm `(0, _)`: on a byte boundary, a value of 9 to 16 bits is two new bytes. */
  lemma ArmFreshTwoBytes(data: nat, width: nat, m: nat, j: nat)
    requires 8 < width <= 16 && data < Pow2(width)
    requires m == width - 8 && j == 16 - width
    ensures Pack(BitsOf(data, width)) == [AsU8(Shr(data, m)), AsU8(Shl16(data, j))]
  {
    var w := BitsOf(data, width);
    PackHead(w);
    assert Pack(w[8..]) == [Chunk(w[8..])];
    FreshHigh(w, data, width, m);
    FreshLow(w, data, width, m, j);
  }

  /** The high byte is the value of the first eight bits. */
  lemma FreshHigh(w: seq<bool>, data: nat, width: nat, m: nat)
    requires 8 < width <= 16 && data < Pow2(width) && m == width - 8
    requires w == BitsOf(data, width)
    ensures Chunk(w[..8]) == AsU8(Shr(data, m))
  {
    ValueOfBitsOfSmall(data, width);
    ValueSplit(w, 8, m);
    ChunkWhole(w[..8]);
    ShrBound(data, 8, m, width);
    Pow2Byte();
    AsU8Small(Shr(data, m));
  }

  /** The low byte holds the remaining `m` bits, left-aligned. */
  lemma FreshLow(w: seq<bool>, data: nat, width: nat, m: nat, j: nat)
    requires 8 < width <= 16 && data < Pow2(width) && m == width - 8 && j == 16 - width
    requires w == BitsOf(data, width)
    ensures Chunk(w[8..]) == AsU8(Shl16(data, j))
  {
    ValueOfBitsOfSmall(data, width);
    ValueSplit(w, 8, m);
    ChunkIs(w[8..], j);
    ShlToByte(data, j, m);
  }

  /** Arm `(_, 0..=8)`: the value fits in the free bits of the last byte. */
  lemma ArmMerge(t: seq<bool>, data: nat, width: nat, r: nat)
    requires 0 < |t| < 8 && 1 <= width && |t| + width <= 8 && data < Pow2(width)
    requires r == 8 - |t| - width
    ensures Pack(t + BitsOf(data, width)) == [Or8(Chunk(t), AsU8(Shl16(data, r)))]
  {
    var w := BitsOf(data, width);
    var x := t + w;
    var k := 8 - |t|;
    assert Pack(x) == [Chunk(x)];
    var b := AsU8(Shl16(data, r));
    var sum := |t| + width;
    assert b == Shl(data, r) by {
      ShlToByte(data, r, sum);
      Pow2Mono(width, sum);
      LowSmall(data, sum);
    }
    calc {
      Chunk(x);
      { ChunkAppend(t, w, r); }
      Chunk(t) + Shl(Value(w), r);
      { ValueOfBitsOfSmall(data, width); }
      Chunk(t) + b;
      { ShlBound(data, width, r, k); ChunkOr(t, b, k); }
      Or8(Chunk(t), b);
    }
  }

  /**
   * When the pushed bits run past the last byte, the last byte becomes its
   * old bits or-ed with the high bits of `data`, and what follows is the low
   * `m = |t| + width - 8` bits of `data`.
   */
  lemma HighByte(t: seq<bool>, data: nat, width: nat, m: nat)
    requires 0 < |t| < 8 && width <= 16 && data < Pow2(width)
    requires 8 < |t| + width && m == |t| + width - 8
    ensures var x := t + BitsOf(data, width);
      |x| == 8 + m &&
      Chunk(x[..8]) == Or8(Chunk(t), AsU8(Shr(data, m))) &&
      Value(x[8..]) == Low(data, m)
  {
    var x := t + BitsOf(data, width);
    var k := 8 - |t|;
    var h := Shr(data, m);
    var v := Shl(Value(t), k) + h;
    ConcatValue(t, data, width, k, m, x, v);
    ValueSplit(x, 8, m);
    Unique(Value(x), v, Low(data, m), m);
    ShrBound(data, k, m, width);
    ChunkWhole(x[..8]);
    ChunkIs(t, k);
    OrHigh(t, h, k);
  }

  /** The value of the partial byte `t` followed by `width` bits of `data`. */
  lemma ConcatValue(t: seq<bool>, data: nat, width: nat, k: nat, m: nat, x: seq<bool>, v: nat)
    requires data < Pow2(width) && k + m == width
    requires x == t + BitsOf(data, width) && v == Shl(Value(t), k) + Shr(data, m)
    ensures Value(x) == Shl(v, m) + Low(data, m)
  {
    var w := BitsOf(data, width);
    ValueAppend(t, w);
    ValueOfBitsOfSmall(data, width);
    Regroup(Value(t), data, k, m, width, v);
  }

  /** `tv` above `width` bits of `data`, regrouped at bit `m`. */
  lemma Regroup(tv: nat, data: nat, k: nat, m: nat, width: nat, v: nat)
    requires k + m == width && v == Shl(tv, k) + Shr(data, m)
    ensures Shl(tv, width) + data == Shl(v, m) + Low(data, m)
  {
    Split(data, m);
    ShlConcat(tv, Shr(data, m), k, m, width);
  }

  /** Or-ing the high bits `h` of the pushed value into the free bits of the partial byte. */
  lemma OrHigh(t: seq<bool>, h: nat, k: nat)
    requires |t| <= 8 && k == 8 - |t| && h < Pow2(k)
    ensures h < 256 && Or8(Chunk(t), AsU8(h)) == Chunk(t) + h
  {
    Pow2Mono(k, 8);
    Pow2Byte();
    AsU8Small(h);
    ChunkOr(t, h, k);
  }

  /** Arm `(_, 9..=16)`: the value fills the last byte and spills into one new byte. */
  lemma ArmMergeOne(t: seq<bool>, data: nat, width: nat, m: nat, j: nat)
    requires 0 < |t| < 8 && width <= 16 && data < Pow2(width)
    requires 8 < |t| + width <= 16 && m == |t| + width - 8 && j == 16 - |t| - width
    ensures Pack(t + BitsOf(data, width)) ==
      [Or8(Chunk(t), AsU8(Shr(data, m))), AsU8(Shl16(data, j))]
  {
    var x := t + BitsOf(data, width);
    var hi, lo := x[..8], x[8..];
    HighByte(t, data, width, m);
    PackHead(x);
    assert Pack(lo) == [Chunk(lo)];
    // the new byte holds the low m bits of data, left-aligned
    assert Chunk(lo) == AsU8(Shl16(data, j)) by {
      ChunkIs(lo, j);
      ShlToByte(data, j, m);
    }
  }

  /** Arm `_`: a value pushed late in a byte spills into two new bytes. */
  lemma ArmMergeTwo(t: seq<bool>, data: nat, width: nat, m: nat, m2: nat, j: nat)
    requires 0 < |t| < 8 && width <= 16 && data < Pow2(width)
    requires 16 < |t| + width && m == |t| + width - 8
    requires m2 == |t| + width - 16 && j == 24 - |t| - width
    ensures Pack(t + BitsOf(data, width)) ==
      [Or8(Chunk(t), AsU8(Shr(data, m))), AsU8(Shr(data, m2)), AsU8(Shl16(data, j))]
  {
    var x := t + BitsOf(data, width);
    var hi, y := x[..8], x[8..];
    var mid, lo := y[..8], y[8..];
    HighByte(t, data, width, m);
    PackHead(x);
    PackHead(y);
    assert Pack(lo) == [Chunk(lo)];
    ValueSplit(y, 8, m2);
    // the middle byte: bits m2 .. m2 + 8 of data
    assert Chunk(mid) == AsU8(Shr(data, m2)) by {
      ChunkWhole(mid);
      ShrLow(data, m2, 8, m);
      LowByte(Shr(data, m2));
    }
    // the last byte: the low m2 bits of data, left-aligned
    assert Chunk(lo) == AsU8(Shl16(data, j)) by {
      LowLow(data, m2, m);
      ChunkIs(lo, j);
      ShlToByte(data, j, m2);
    }
  }

  /** Stream length arithmetic: `shift` follows the length of the stream modulo 8. */
  lemma StreamLength(len: nat, shift: nat, width: nat, sum: nat, newLen: nat)
    requires shift == len % 8 && sum == shift + width && newLen == len + width
    ensures sum % 8 == newLen % 8
  {
  }

  /** On a byte boundary, pushed bits are packed into new bytes after the old ones. */
  lemma StepAligned(bits: seq<bool>, bytes: seq<Byte>, w: seq<bool>)
    requires bytes == Pack(bits) && |bits| % 8 == 0
    ensures Pack(bits + w) == bytes + Pack(w)
  {
    PackAppendAligned(bits, w);
  }

  /**
   * Inside a byte, the last byte is the chunk of the partial tail `t`, and
   * pushed bits repack that tail: the bytes before it stay as they are.
   */
  lemma StepPartial(bits: seq<bool>, bytes: seq<Byte>, w: seq<bool>)
    requires bytes == Pack(bits) && |bits| % 8 != 0
    ensures var t, last := bits[Whole(|bits|)..], |bytes| - 1;
      |bytes| > 0 && |t| == |bits| % 8 &&
      bytes[last] == Chunk(t) &&
      Pack(bits + w) == bytes[..last] + Pack(t + w)
  {
    var n := Whole(|bits|);
    var head, t := bits[..n], bits[n..];
    PackLast(bits);
    PackExtend(bits, w);
    assert Pack(t) == [Chunk(t)];
    var last := |bytes| - 1;
    assert bytes[..last] == Pack(head);
  }

  // ---------------------------------------------------------------------
  // Each arm of `push` applied to a whole stream: the byte vector the arm
  // produces is the packing of the longer stream.

  lemma StepFreshByte(bits: seq<bool>, bytes: seq<Byte>, data: nat, width: nat, k: nat)
    requires bytes == Pack(bits) && |bits| % 8 == 0
    requires 1 <= width <= 8 && data < Pow2(width) && k == 8 - width
    ensures bytes + [AsU8(Shl16(data, k))] == Pack(bits + BitsOf(data, width))
  {
    StepAligned(bits, bytes, BitsOf(data, width));
    ArmFreshByte(data, width, k);
  }

  lemma StepFreshTwoBytes(bits: seq<bool>, bytes: seq<Byte>, data: nat, width: nat, m: nat, j: nat)
    requires bytes == Pack(bits) && |bits| % 8 == 0
    requires 8 < width <= 16 && data < Pow2(width) && m == width - 8 && j == 16 - width
    ensures bytes + [AsU8(Shr(data, m)), AsU8(Shl16(data, j))] == Pack(bits + BitsOf(data, width))
  {
    StepAligned(bits, bytes, BitsOf(data, width));
    ArmFreshTwoBytes(data, width, m, j);
  }

  lemma StepMerge(bits: seq<bool>, bytes: seq<Byte>, data: nat, width: nat, r: nat, last: int)
    requires bytes == Pack(bits) && 0 < |bits| % 8 && last == |bytes| - 1
    requires 1 <= width && |bits| % 8 + width <= 8 && data < Pow2(width) && r == 8 - |bits| % 8 - width
    ensures 0 <= last
    ensures bytes[last := Or8(bytes[last], AsU8(Shl16(data, r)))] == Pack(bits + BitsOf(data, width))
  {
    var w, t := BitsOf(data, width), bits[Whole(|bits|)..];
    StepPartial(bits, bytes, w);
    ArmMerge(t, data, width, r);
    ReplaceLast(bytes, Or8(bytes[last], AsU8(Shl16(data, r))));
  }

  lemma StepMergeOne(bits: seq<bool>, bytes: seq<Byte>, data: nat, width: nat, m: nat, j: nat, last: int)
    requires bytes == Pack(bits) && 0 < |bits| % 8 && last == |bytes| - 1
    requires width <= 16 && data < Pow2(width)
    requires 8 < |bits| % 8 + width <= 16 && m == |bits| % 8 + width - 8 && j == 16 - |bits| % 8 - width
    ensures 0 <= last
    ensures bytes[last := Or8(bytes[last], AsU8(Shr(data, m)))] + [AsU8(Shl16(data, j))] ==
      Pack(bits + BitsOf(data, width))
  {
    var w, t := BitsOf(data, width), bits[Whole(|bits|)..];
    StepPartial(bits, bytes, w);
    ArmMergeOne(t, data, width, m, j);
    var hi := Or8(bytes[last], AsU8(Shr(data, m)));
    ReplaceLast(bytes, hi);
    AppendOne(bytes[..last], hi, AsU8(Shl16(data, j)));
  }

  lemma StepMergeTwo(bits: seq<bool>, bytes: seq<Byte>, data: nat, width: nat, m: nat, m2: nat, j: nat, last: int)
    requires bytes == Pack(bits) && 0 < |bits| % 8 && last == |bytes| - 1
    requires width <= 16 && data < Pow2(width)
    requires 16 < |bits| % 8 + width && m == |bits| % 8 + width - 8
    requires m2 == |bits| % 8 + width - 16 && j == 24 - |bits| % 8 - width
    ensures 0 <= last
    ensures bytes[last := Or8(bytes[last], AsU8(Shr(data, m)))] +
      [AsU8(Shr(data, m2)), AsU8(Shl16(data, j))] == Pack(bits + BitsOf(data, width))
  {
    var w, t := BitsOf(data, width), bits[Whole(|bits|)..];
    StepPartial(bits, bytes, w);
    ArmMergeTwo(t, data, width, m, m2, j);
    var hi := Or8(bytes[last], AsU8(Shr(data, m)));
    ReplaceLast(bytes, hi);
    AppendTwo(bytes[..last], hi, AsU8(Shr(data, m2)), AsU8(Shl16(data, j)));
  }

  /** Updating the last element is dropping it and appending the new one. */
  lemma ReplaceLast(s: seq<Byte>, v: Byte)
    requires |s| > 0
    ensures s[|s| - 1 := v] == s[..|s| - 1] + [v]
  {
  }

  lemma AppendOne(p: seq<Byte>, a: Byte, b: Byte)
    ensures p + [a] + [b] == p + [a, b]
  {
  }

  lemma AppendTwo(p: seq<Byte>, a: Byte, b: Byte, c: Byte)
    ensures p + [a] + [b, c] == p + [a, b, c]
  {
  }

  /** What `push_full_byte` appends: the free bits stay zero and `d` is the next byte. */
  lemma FullByte(bits: seq<bool>, z: seq<bool>, d: Byte)
    requires z == Zeros(FillBits(|bits|))
    ensures Pack(bits + z + BitsOf(d, 8)) == Pack(bits) + [d]
    ensures |bits + z + BitsOf(d, 8)| % 8 == 0
  {
    PackFill(bits, z);
    PackByte(bits + z, d);
    AlignedAfterByte(|bits| + |z|);
  }

  lemma AlignedAfterByte(n: nat)
    requires n % 8 == 0
    ensures (n + 8) % 8 == 0
  {
  }

  /** How many codewords each arm of `push` appends to a stream of `len` bits. */
  lemma PushGrowth(len: nat, width: nat)
    requires 1 <= width <= 16
    ensures (len + width + 7) / 8 - (len + 7) / 8 == Growth(len % 8, width)
  {
    var q, shift := len / 8, len % 8;
    assert len == 8 * q + shift;
    assert (len + 7) / 8 == q + (if shift == 0 then 0 else 1);
    assert (len + width + 7) / 8 == q + (shift + width + 7) / 8;
  }

  /** The whole bytes of a stream of `len` bits: all but a last, partly used one. */
  lemma WholeBytes(len: nat)
    ensures len / 8 == (len + 7) / 8 - (if len % 8 == 0 then 0 else 1)
  {
  }

  /** The number of codewords each arm of `push` appends to `p`, `used` bits of whose last one are taken. */
  function Growth(used: nat, width: nat): nat
  {
    if used == 0 then (if width <= 8 then 1 else 2)
    else if used + width <= 8 then 0
    else if used + width <= 16 then 1
    else 2
  }

  /**
   * What a push of `width` bits leaves of the codewords `p` already written,
   * `used` bits of whose last one were taken, in the new codewords `q`: every
   * whole byte, and the used high bits of a partly used last byte; the
   * stream grows by the number of codewords the arm of `push` appends.
   */
  ghost predicate KeepsWritten(p: seq<Byte>, used: nat, q: seq<Byte>, width: nat)
  {
    |q| == |p| + Growth(used, width) && KeepsWhole(p, used, q) && KeepsUsed(p, used, q)
  }

  ghost predicate KeepsWhole(p: seq<Byte>, used: nat, q: seq<Byte>)
  {
    var kept := if used == 0 then |p| else |p| - 1;
    0 <= kept <= |p| && kept <= |q| && q[..kept] == p[..kept]
  }

  ghost predicate KeepsUsed(p: seq<Byte>, used: nat, q: seq<Byte>)
  {
    0 < used < 8 ==> 0 < |p| <= |q| && Shr(q[|p| - 1], 8 - used) == Shr(p[|p| - 1], 8 - used)
  }

  lemma PushFrame(bits: seq<bool>, w: seq<bool>, width: nat)
    requires 1 <= width <= 16 && |w| == width
    ensures KeepsWritten(Pack(bits), |bits| % 8, Pack(bits + w), width)
  {
    PushGrowth(|bits|, width);
    FrameWhole(bits, w);
    FrameUsed(bits, w);
  }

  lemma FrameWhole(bits: seq<bool>, w: seq<bool>)
    ensures KeepsWhole(Pack(bits), |bits| % 8, Pack(bits + w))
  {
    var p := Pack(bits);
    WholeBytes(|bits|);
    AppendKeepsWholeBytes(bits, w);
    assert |bits| / 8 == if |bits| % 8 == 0 then |p| else |p| - 1;
  }

  lemma FrameUsed(bits: seq<bool>, w: seq<bool>)
    ensures KeepsUsed(Pack(bits), |bits| % 8, Pack(bits + w))
  {
    if |bits| % 8 != 0 {
      WholeBytes(|bits|);
      assert |bits| / 8 == |Pack(bits)| - 1;
      AppendKeepsUsedBits(bits, w, 8 - |bits| % 8);
    }
  }

  // ---------------------------------------------------------------------

  class Bytes {
    /** The codewords written so far (the Rust `Vec<u8>`). */
    var bytes: seq<Byte>
    /** How many bits of the last byte are used; 0 when the stream is byte-aligned. */
    var shift: nat
    /** Every bit pushed so far, in order. */
    ghost var bits: seq<bool>

    ghost predicate Valid()
      reads this
    {
      bytes == Pack(bits) && shift == |bits| % 8
    }

    /** `Bytes::with_capacity`: an empty stream; the capacity is only a size hint. */
    constructor WithCapacity(capacity: nat)
      ensures Valid()
      ensures bits == [] && bytes == [] && shift == 0
    {
      bytes := [];
      shift := 0;
      bits := [];
    }

    /** `shift()`: the number of bits used in the last byte. */
    function Shift(): (r: nat)
      reads this
      requires Valid()
      ensures r == |bits| % 8 && r < 8
    {
      shift
    }

    /** `len()`, reached through `Deref`: one codeword per started byte. */
    function Len(): (r: nat)
      reads this
      requires Valid()
      ensures r == (|bits| + 7) / 8
    {
      |bytes|
    }

    /**
     * `push(data, width)`: append the low `width` bits of `data`, most
     * significant first, through the five arms of the source's match on
     * `(shift, shift + width)`.
     */
    method Push(data: nat, width: nat)
      requires Valid()
      requires 1 <= width <= 16 && data < Pow2(width)
      modifies this
      ensures Valid()
      ensures bits == old(bits) + BitsOf(data, width)
      ensures shift == (old(shift) + width) % 8
      ensures KeepsWritten(old(bytes), old(shift), bytes, width)
    {
      PushFrame(bits, BitsOf(data, width), width);
      var sum := width + shift;
      if shift == 0 && sum <= 8 {
        PushNewByte(data, width);
      } else if shift == 0 {
        PushNewTwoBytes(data, width);
      } else if sum <= 8 {
        PushIntoLast(data, width);
      } else if sum <= 16 {
        PushIntoLastAndOne(data, width);
      } else {
        PushIntoLastAndTwo(data, width);
      }
    }

    /** Arm `(0, 0..=8)` of `push`. */
    method PushNewByte(data: nat, width: nat)
      requires Valid() && shift == 0
      requires 1 <= width <= 8 && data < Pow2(width)
      modifies this
      ensures Valid()
      ensures bits == old(bits) + BitsOf(data, width)
      ensures shift == width % 8
    {
      var sum := width + shift;
      ghost var nb := bits + BitsOf(data, width);
      StreamLength(|bits|, shift, width, sum, |nb|);
      StepFreshByte(bits, bytes, data, width, 8 - sum);
      bytes := bytes + [AsU8(Shl16(data, 8 - sum))];
      shift := sum % 8;
      bits := nb;
    }

    /** Arm `(0, _)` of `push`. */
    method PushNewTwoBytes(data: nat, width: nat)
      requires Valid() && shift == 0
      requires 8 < width <= 16 && data < Pow2(width)
      modifies this
      ensures Valid()
      ensures bits == old(bits) + BitsOf(data, width)
      ensures shift == width % 8
    {
      var sum := width + shift;
      ghost var nb := bits + BitsOf(data, width);
      StreamLength(|bits|, shift, width, sum, |nb|);
      StepFreshTwoBytes(bits, bytes, data, width, sum - 8, 16 - sum);
      bytes := bytes + [AsU8(Shr(data, sum - 8)), AsU8(Shl16(data, 16 - sum))];
      shift := sum % 8;
      bits := nb;
    }

    /** Arm `(_, 0..=8)` of `push`: or into the last byte. */
    method PushIntoLast(data: nat, width: nat)
      requires Valid() && shift > 0
      requires 1 <= width && shift + width <= 8 && data < Pow2(width)
      modifies this
      ensures Valid()
      ensures bits == old(bits) + BitsOf(data, width)
      ensures shift == (old(shift) + width) % 8
    {
      var sum := width + shift;
      ghost var nb := bits + BitsOf(data, width);
      StreamLength(|bits|, shift, width, sum, |nb|);
      var last := |bytes| - 1;
      StepMerge(bits, bytes, data, width, 8 - sum, last);
      bytes := bytes[last := Or8(bytes[last], AsU8(Shl16(data, 8 - sum)))];
      shift := sum % 8;
      bits := nb;
    }

    /** Arm `(_, 9..=16)` of `push`: or into the last byte and append one. */
    method PushIntoLastAndOne(data: nat, width: nat)
      requires Valid() && shift > 0
      requires width <= 16 && 8 < shift + width <= 16 && data < Pow2(width)
      modifies this
      ensures Valid()
      ensures bits == old(bits) + BitsOf(data, width)
      ensures shift == (old(shift) + width) % 8
    {
      var sum := width + shift;
      ghost var nb := bits + BitsOf(data, width);
      StreamLength(|bits|, shift, width, sum, |nb|);
      var last := |bytes| - 1;
      StepMergeOne(bits, bytes, data, width, sum - 8, 16 - sum, last);
      bytes := bytes[last := Or8(bytes[last], AsU8(Shr(data, sum - 8)))];
      bytes := bytes + [AsU8(Shl16(data, 16 - sum))];
      shift := sum % 8;
      bits := nb;
    }

    /** Arm `_` of `push`: or into the last byte and append two. */
    method PushIntoLastAndTwo(data: nat, width: nat)
      requires Valid() && shift > 0
      requires width <= 16 && 16 < shift + width && data < Pow2(width)
      modifies this
      ensures Valid()
      ensures bits == old(bits) + BitsOf(data, width)
      ensures shift == (old(shift) + width) % 8
    {
      var sum := width + shift;
      ghost var nb := bits + BitsOf(data, width);
      StreamLength(|bits|, shift, width, sum, |nb|);
      var last := |bytes| - 1;
      StepMergeTwo(bits, bytes, data, width, sum - 8, sum - 16, 24 - sum, last);
      bytes := bytes[last := Or8(bytes[last], AsU8(Shr(data, sum - 8)))];
      bytes := bytes + [AsU8(Shr(data, sum - 16)), AsU8(Shl16(data, 24 - sum))];
      // `sum & 0b111`
      shift := sum % 8;
      bits := nb;
    }

    /**
     * While the last byte is partly used, its free low bits are zero: the
     * `|=` merges of `push` rely on this.
     */
    lemma FreeBitsClear()
      requires Valid() && shift > 0
      ensures |bytes| > 0 && Low(bytes[|bytes| - 1], 8 - shift) == 0
    {
      PackLastFree(bits, 8 - shift);
    }

    /** `push_full_byte(d)`: append `d` as a whole byte, skipping the free bits of the last one. */
    method PushFullByte(d: Byte)
      requires Valid()
      modifies this
      ensures Valid()
      ensures bits == old(bits) + Zeros(FillBits(|old(bits)|)) + BitsOf(d, 8)
      ensures bytes == old(bytes) + [d] && shift == 0
    {
      ghost var z := Zeros(FillBits(|bits|));
      FullByte(bits, z, d);
      shift := 0;
      bytes := bytes + [d];
      bits := bits + z + BitsOf(d, 8);
    }

    /** `into_parts`: the bytes and the number of bits used in the last one. */
    method IntoParts() returns (bs: seq<Byte>, used: nat)
      requires Valid()
      ensures bs == Pack(bits) && |bs| == (|bits| + 7) / 8
      ensures used == |bits| % 8 && used < 8
    {
      bs, used := bytes, shift;
    }
  }
}
