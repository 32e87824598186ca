# easy_qr data codewords, modelled in Dafny

This project models the part of the `easy_qr` crate that turns a string into
the data codewords of a QR symbol, following ISO/IEC 18004:2015. It covers:

- the mode indicators of Table 2 and the character-count widths of Table 3;
- numeric, alphanumeric and byte segments (sections 7.4.3, 7.4.4 and 7.4.5,
  with the alphanumeric values of Table 5);
- the terminator of section 7.4.9;
- the codeword packing and the `0xEC`/`0x11` pad codewords of section 7.4.10;
- the data-codeword capacities of Table 7.

Modules:

- `Wrappers`: the `Option` type that `create_bits` and `fit_version` return.
- `Qr` (src/lib.rs):
  - error-correction levels and encoding modes with their indicators;
  - the 40×4 capacity table `data_size` and `fit_version`;
  - mode analysis (`analyze_string`), both as the left-to-right scan with
    its early return and as the function `ModeOf` it computes.
- `Packing`: the bit-level vocabulary. It defines:
  - `BitsOf(v, w)`, the `w`-bit big-endian form of `v`, and its inverse
    `Value`;
  - `Pack`, the MSB-first, zero-padded packing of a bit string into bytes,
    and its inverse `Unpack`;
  - Rust's `u16` shifts, the `as u8` truncation and the `|=` on a byte,
    each written out explicitly (`Shl16`, `Shr`, `AsU8`, `Or8`).
- `ByteStream` (src/byte_stream.rs): the bit accumulator `Bytes` as a
  class.
  - Its fields `bytes` and `shift` are those of the Rust struct. A ghost
    field `bits` records every bit pushed so far.
  - `Valid()` says that `bytes` is always `Pack(bits)` and that `shift` is
    `|bits| % 8`.
  - `push` keeps its five arms, one method each. Each arm is proved to keep
    `Valid()`.
- `Encoding` (src/encoding.rs):
  - the count-width table and the alphanumeric symbol table;
  - the three segment encoders as loops over the input that push through
    `Bytes`, each proved against a function giving the bits it appends;
  - `encode_start`, and `encode_end` with its terminator and pad loop;
  - `create_bits`, proved equal to the function `Encode`.

  `Encode` has these properties:
  - it returns `None` exactly when the header and data take more codewords
    than the capacity;
  - otherwise it returns exactly `data_size` codewords. These are the
    standard codeword sequence: data bits, a terminator of up to four zero
    bits, zero fill to the byte boundary, then alternating pad codewords;
  - a reader of the mode indicator, count field and segment gets back the
    input string (`EncodeReadsBack`).

Input strings are sequences of bytes, the UTF-8 form of the Rust `&str`. The
count in the header is the byte length, as `create_bits` passes
`self.len()`: the UTF-8 byte length. For Numeric and Alphanumeric input
every byte is ASCII, so it equals the number of characters.

## Model

| member | source | states |
|---|---|---|
| Qr.Indicator | src/lib.rs:28-32 | each mode's indicator is nonzero and fits the 4-bit mode field |
| Qr.IndicatorInjective | src/lib.rs:28-32 | two modes have the same indicator exactly when they are the same mode |
| Qr.DataSize | src/lib.rs:128-137 | the data codewords of a version at a level, read from the 40-row table; every entry lies between 9 and 2956 |
| Qr.DataSizeBounds | src/lib.rs:150-191 | every capacity lies between 9 (V1-H) and 2956 (V40-L) codewords |
| Qr.DataSizeStep | src/lib.rs:150-191 | at each level, every version holds strictly more codewords than the one before |
| Qr.DataSizeIncreasing | src/lib.rs:128-137 | at each level, capacity strictly increases with the version across any distance |
| Qr.DataSizeLevels | src/lib.rs:150-191 | within a version, capacity at L > M > Q > H |
| Qr.CapacityAtMostTop | src/lib.rs:150-191 | no version holds more than V40 at the same level |
| Qr.FitVersion | src/lib.rs:114-123 | a returned version covers the count and every earlier version is too small; None means no version covers it |
| Qr.FitFrom | src/lib.rs:140-147 | the first-match scan from a version on returns the first covering version at or after it, or None when none covers the count |
| Qr.FitVersionNone | src/lib.rs:140-147 | fit_version is None exactly when the count exceeds V40's capacity at that level |
| Qr.FitVersionLimits | src/lib.rs:190 | fit_version is None exactly above 2956 / 2334 / 1666 / 1276 codewords for L / M / Q / H |
| Qr.FitVersionLeast | src/lib.rs:140-147 | if some version covers the count, fit_version returns that version or an earlier one |
| Qr.Join | src/lib.rs:43-47 | the join of two modes is one of them and is at least as general as both (the least upper bound in Numeric < Alphanumeric < Byte) |
| Qr.JoinLaws | src/lib.rs:39-51 | joining is commutative, associative and idempotent; Numeric, the scan's starting mode, is its identity and Byte absorbs everything |
| Qr.ModeOfNumeric | src/lib.rs:37-52 | the mode is Numeric exactly when every byte is an ASCII digit (so the empty string is Numeric) |
| Qr.ModeOfByteMode | src/lib.rs:47 | the mode is Byte exactly when some byte lies outside the 45-symbol alphanumeric set |
| Qr.ModeOfAlphanumeric | src/lib.rs:43-46 | the mode is Alphanumeric exactly when all bytes are alphanumeric and one is not a digit |
| Qr.ModeOfAppend | src/lib.rs:39-51 | the mode of a concatenation is the join of the parts' modes, so the scan never falls back to a narrower mode |
| Qr.AnalyzeString | src/lib.rs:37-52 | the scan with its early return computes the mode defined by the three characterisations above |
| Packing.ValueOfBitsOfSmall | src/byte_stream.rs:20-24 | a value below 2^width reads back from its width-bit big-endian form |
| Packing.BitsOfValue | src/byte_stream.rs:20-24 | a bit string is the width-bit form of its own value |
| Packing.PackAppendAligned | src/byte_stream.rs:27-33 | from a byte boundary, packing a concatenation packs each part separately |
| Packing.UnpackPack | src/byte_stream.rs:25-48 | the packed bytes unpack to the pushed bits followed by zero fill up to the byte boundary |
| Packing.PackUnpack | src/byte_stream.rs:61-64 | packing the bits of a byte sequence gives back that byte sequence |
| Packing.PackLastFree | src/byte_stream.rs:34-45 | when the last byte is partly used, its free low bits are zero |
| Packing.AppendKeepsWholeBytes | src/byte_stream.rs:26-46 | appending bits never changes a byte that was already full |
| Packing.AppendKeepsUsedBits | src/byte_stream.rs:34-45 | appending bits never changes the used high bits of a partly used last byte |
| Packing.OrDisjoint | src/byte_stream.rs:35 | or-ing two values with disjoint bits adds them |
| ByteStream.ArmFreshByte | src/byte_stream.rs:27-29 | the aligned arm's byte `(data << (8 - sum)) as u8` is the packing of the pushed bits |
| ByteStream.ArmFreshTwoBytes | src/byte_stream.rs:30-33 | the aligned two-byte arm's bytes are the packing of the pushed bits |
| ByteStream.ArmMerge | src/byte_stream.rs:34-36 | or-ing into the last byte gives the packing of the old partial byte's bits plus the new ones |
| ByteStream.ArmMergeOne | src/byte_stream.rs:37-40 | the merge-plus-one arm gives the packing of the partial byte's bits plus the new ones |
| ByteStream.ArmMergeTwo | src/byte_stream.rs:41-45 | the merge-plus-two arm gives the packing of the partial byte's bits plus the new ones |
| ByteStream.PushGrowth | src/byte_stream.rs:26-46 | the number of codewords each arm appends (1 or 2 when aligned; 0, 1 or 2 when merging) is the growth of ceil(bits/8) |
| ByteStream.PushFrame | src/byte_stream.rs:26-46 | a push keeps every whole byte and the used bits of the last one, and grows the stream by its arm's count |
| ByteStream.FullByte | src/byte_stream.rs:65-68 | pushing a whole byte after skipping the free bits appends exactly that byte and realigns the stream |
| ByteStream.Bytes.WithCapacity | src/byte_stream.rs:52-57 | a new stream is empty, aligned, and holds no bits |
| ByteStream.Bytes.Shift | src/byte_stream.rs:70-72 | `shift()` is the number of used bits in the last byte, the bit count modulo 8, below 8 |
| ByteStream.Bytes.Len | src/byte_stream.rs:75-81 | the length seen through `Deref` is ceil(bits/8) |
| ByteStream.Bytes.Push | src/byte_stream.rs:20-49 | keeps bytes == Pack(bits); the bits gain the width-bit big-endian form of data; shift becomes (shift + width) mod 8; earlier bytes and used bits are kept |
| ByteStream.Bytes.PushNewByte | src/byte_stream.rs:27-29 | arm `(0, 0..=8)` appends the pushed bits and keeps the invariant |
| ByteStream.Bytes.PushNewTwoBytes | src/byte_stream.rs:30-33 | arm `(0, _)` appends the pushed bits and keeps the invariant |
| ByteStream.Bytes.PushIntoLast | src/byte_stream.rs:34-36 | arm `(_, 0..=8)` appends the pushed bits and keeps the invariant |
| ByteStream.Bytes.PushIntoLastAndOne | src/byte_stream.rs:37-40 | arm `(_, 9..=16)` appends the pushed bits and keeps the invariant |
| ByteStream.Bytes.PushIntoLastAndTwo | src/byte_stream.rs:41-45 | arm `_` appends the pushed bits and keeps the invariant |
| ByteStream.Bytes.FreeBitsClear | src/byte_stream.rs:34-45 | when shift > 0 the stream is non-empty and the low 8 - shift bits of its last byte are zero, so `last_mut().unwrap()` and `\|=` are sound |
| ByteStream.Bytes.PushFullByte | src/byte_stream.rs:65-68 | appends exactly the byte d, sets shift to 0, and skips the free bits of the last byte |
| ByteStream.Bytes.IntoParts | src/byte_stream.rs:58-64 | returns the packing of all pushed bits and the number of used bits in the last byte |
| Encoding.CountBits | src/encoding.rs:103-125 | the count field is between 8 and 16 bits wide |
| Encoding.CountBitsGrow | src/encoding.rs:106-124 | the count field never narrows as the version grows |
| Encoding.ByteToAlphanumeric | src/encoding.rs:133-151 | every value is below 45; a byte outside the 45 symbols maps to 0 |
| Encoding.SymbolRoundTrip | src/encoding.rs:133-151 | each of the 45 values is the value of an alphanumeric symbol, and of no other alphanumeric byte |
| Encoding.SymbolOfByte | src/encoding.rs:133-151 | an alphanumeric byte is recovered from its value |
| Encoding.ByteToAlphanumericInjective | src/encoding.rs:133-151 | two alphanumeric bytes with the same value are equal |
| Encoding.AlphabetOrder | src/encoding.rs:135-148 | the symbols `0-9`, `A-Z`, ` $%*+-./:` get the values 0 to 44 in that order |
| Encoding.NumericGroup | src/encoding.rs:72-76 | a group of 1-3 digits has its decimal value and width 4, 7 or 10, and the value fits the width |
| Encoding.NumericGroupFold | src/encoding.rs:72-76 | the source's fold `(acc * 10 + b, w + 3)` gives the group's decimal value and width |
| Encoding.NumericBits | src/encoding.rs:69-79 | a numeric segment of n digits has 10*(n/3) + [0,4,7][n%3] bits |
| Encoding.DigitsOfDecimal | src/encoding.rs:75-76 | the digits of a group's decimal value are the group |
| Encoding.NumericRoundTrip | src/encoding.rs:69-79 | decoding the numeric segment's groups gives back the digits |
| Encoding.AlphanumericGroup | src/encoding.rs:59-65 | a pair is 45*a0 + a1 in 11 bits and a single symbol a0 in 6 bits; the value fits the width |
| Encoding.AlphanumericGroupFold | src/encoding.rs:59-65 | the source's fold `(acc * 45 + b, w + 5)` gives the pair's value and width |
| Encoding.AlphanumericBits | src/encoding.rs:57-67 | an alphanumeric segment of n symbols has 11*(n/2) + 6*(n%2) bits |
| Encoding.AlphanumericRoundTrip | src/encoding.rs:57-67 | decoding the segment gives back the input, with every non-symbol byte read as `0` (value 0) |
| Encoding.AlphanumericRoundTripExact | src/encoding.rs:57-67 | for an all-alphanumeric input, decoding gives back the input exactly |
| Encoding.Header | src/encoding.rs:82-87 | the header is 4 plus the count width long |
| Encoding.HeaderRoundTrip | src/encoding.rs:82-87 | the header's first 4 bits read as the mode indicator and the rest as the count, when the count fits |
| Encoding.SegmentRoundTrip | src/encoding.rs:38-42 | the segment of the analysed mode reads back to the input |
| Encoding.DataBits | src/encoding.rs:37-42 | the data bits are the header plus a segment of the mode's length for the input |
| Encoding.Pads | src/encoding.rs:94-98 | n pad codewords, each 0xEC or 0x11, starting with 0xEC and alternating |
| Encoding.FinishLength | src/encoding.rs:90-99 | the end step keeps the codewords written and pads to the capacity, adding nothing when already full |
| Encoding.FinishIsStandard | src/encoding.rs:90-99 | the end step on packed bits gives the standard sequence: terminator of up to 4 zero bits, zero fill, then alternating pads |
| Encoding.StandardPrefix | src/encoding.rs:90-99 | the standard codewords unpack to the data bits followed by the rest |
| Encoding.EncodeResult | src/encoding.rs:27-50 | create_bits is None exactly when the data bits need more codewords than the capacity; otherwise it has exactly data_size codewords, the analysed mode, and the standard codeword sequence |
| Encoding.FullSymbol | src/encoding.rs:43-49 | data bits that fill the capacity exactly are returned packed, with no terminator and no pad |
| Encoding.ModeOfIndicator | src/lib.rs:28-32 | a recognised indicator is the indicator of the mode returned |
| Encoding.IndicatorRecognised | src/lib.rs:28-32 | every mode is recognised from its indicator |
| Encoding.DataReadsBack | src/encoding.rs:37-42 | any bits that start with the data bits of s read back to s |
| Encoding.EncodeReadsBack | src/encoding.rs:27-50 | the codewords create_bits returns read back to the input string |
| Encoding.LongSegment | src/encoding.rs:82-87 | a count too wide for its field gives a segment longer than any capacity of that version |
| Encoding.LongInputsOverflow | src/encoding.rs:45-46 | an input whose length does not fit the count field always overflows the capacity, so the result is None |
| Encoding.NineAtVersion1High | src/encoding/test.rs:35-36 | "9" at V1-H gives 10 06 40 EC 11 EC 11 EC 11 in Numeric mode |
| Encoding.SeventeenNines | src/encoding/test.rs:53-54 | seventeen nines at V1-H take 71 bits and fill the 9 codewords with no terminator or pad |
| Encoding.EncodeByte | src/encoding.rs:53-55 | the loop appends every byte of the input at width 8 and keeps the stream invariant |
| Encoding.EncodeAlphanumeric | src/encoding.rs:57-67 | the loop over pairs appends exactly the alphanumeric segment |
| Encoding.EncodeNumeric | src/encoding.rs:69-79 | the loop over groups of three appends exactly the numeric segment |
| Encoding.EncodeStart | src/encoding.rs:82-87 | appends the mode indicator and the count at the mode's count width |
| Encoding.EncodeEnd | src/encoding.rs:90-99 | the terminator byte is added iff (shift == 0 or shift > 4) and the stream is short; then pads follow until the capacity is reached; shift ends at 0 whenever a codeword was appended and is unchanged otherwise |
| Encoding.FinishSteps | src/encoding.rs:94-98 | the pad loop's final state is the end step's result |
| Encoding.CreateBits | src/encoding.rs:27-50 | analyse, header, segment and end on a `Bytes` stream compute exactly `Encode` |

## Left out

- ByteStream.Bytes.Push: requires `1 <= width`. The debug assertion also
  admits `push(0, 0)`, which on an aligned stream appends a zero byte and no
  bit. No caller pushes zero bits.
- ByteStream.Bytes.Push: the debug assertion's `data < (1 << width)` is a
  precondition, not a modelled panic.
- Encoding.EncodeStart: requires the count to fit its field. The source
  pushes `count as u16`, which keeps count mod 65536. For a 16-bit field
  the debug assertion in `push` then always passes, and the header carries
  the truncated count. For a narrower field, a cast count that does not fit
  fails the debug assertion. In a release build its high bits are or-ed
  into the mode indicator's byte. In every such case `create_bits` still
  returns `None`, because the data bits alone exceed the capacity
  (`LongInputsOverflow`).
- Encoding.CreateBits: the same requirement on the input length. It costs
  nothing: `LongInputsOverflow` shows that every such input overflows the
  capacity, so `Encode` is `None` for it.
- Encoding.EncodeNumeric: requires every byte to be a digit. It is only
  called when the analysed mode is Numeric. On a byte below `'0'` the
  source's `b - b'0'` would underflow a `u8`. A byte above `'9'` gives a
  value of 10 or more, which the model does not compute.
- Versions are the integers 1 to 40 rather than forty enum variants, and
  `data_size` is a single 40-row table.
- `Deref for Bytes` appears only as `Len`. The `with_capacity` size hint has
  no effect on the model's state.
- `Option<T>` is modelled with the source's `None`/`Some` and nothing more.
- src/main.rs (console printing) and src/encoding/test.rs (commented out,
  stale signatures) are not part of this model. The two vectors
  `NineAtVersion1High` and `SeventeenNines` come from that file.
- Encoding.SeventeenNines: proves only that the 71 data bits fill the nine
  codewords with no terminator or pad. It does not compute their byte
  values. All other vectors in that file are not reproduced.
- The "total bits" comment block in src/lib.rs is unused data.
- The lint attributes carry no behaviour.
- Kanji mode, Reed-Solomon error correction, block interleaving, module
  placement and masking do not appear in these files.
- Rust strings are modelled by their UTF-8 bytes. No decoding or validation
  of UTF-8 is modelled.
