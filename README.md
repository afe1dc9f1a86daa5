# BlurHash encoder: integer and text layer

This project models the part of the Go BlurHash encoder (`blurhash.go`)
that turns already-quantised numbers into the fixed-layout base-83 hash
text, and proves what that text contains.

The modelled pieces are:

- the 83-symbol alphabet and the helpers that append one, two or four
  big-endian base-83 digits to a byte buffer;
- the packed component shape `(h-1)*9 + (w-1)`;
- the 24-bit DC colour `(R<<16)|(G<<8)|B`;
- the 19-ary AC packing `qR*19^2 + qG*19 + qB` and the integer clamps
  applied to the floored quantiser outputs;
- the scale-digit rule;
- the field order of `Append`: shape digit, scale digit, four DC digits,
  then two digits per AC term;
- `EncodedLen` and `Encode`;
- the `(p >> 8) & 0xff` extraction of the top byte of a 16-bit colour
  sample.

Modules:

- `Bits`: Go's `<<`, `>>`, `|` and `&` on non-negative integers, and the
  `byte`/`uint32` ranges.
- `Base83`: the alphabet and the append helpers. A decoder (`DigitValue`,
  `Decode`) is the partner the helpers are proved against.
- `Fields`: the shape, DC and AC packings. Each has an unpacking partner
  and round-trip lemmas.
- `Hash`: the assembly. `Append` is a method with a loop over the AC terms
  (`AppendTerms`). It is proved equal to the function `AppendHash`. A parser
  of the finished text (`Parse`) is the partner against which every
  assembled hash is shown to read back to its fields.

The byte buffer `dst` is a `seq<byte>`. Go's `append` returns the extended
slice, so each step is modelled as the new sequence it returns. When `dst`
has spare capacity, Go's `append` writes into the caller's backing array;
that aliasing is not captured by an immutable sequence.

The floating-point stages become inputs to `Append`:

- `dc` is the three colour bytes the sRGB conversion produced;
- `maxFloor` is the floored `actualMax*166 - 0.5`;
- `acFloors` holds each AC term's floored `signSqrt(v/max)*9 + 9.5` per
  channel.

The integer clamps that follow these floors are modelled.

## Model

| member | source | states |
|---|---|---|
| Base83.Char | blurhash.go:171 | `base83chars[d]` as a function of the digit: every symbol is a printable ASCII byte between `'#'` and `'~'`; `CharIsAlphabet`, `CharInjective` and `CharDecodes` state that it is byte `d` of the alphabet, injective and decodable |
| Base83.CharIsAlphabet | blurhash.go:171 | the digit symbol of `d < 83` is byte `d` of the 83-byte alphabet |
| Base83.CharInjective | blurhash.go:171 | distinct digits below 83 have distinct symbols |
| Base83.AlphabetDistinct | blurhash.go:171 | the 83 bytes of the alphabet are pairwise distinct |
| Base83.CharDecodes | blurhash.go:171-175 | reading a digit's symbol back gives that digit |
| Base83.DigitValueInverse | blurhash.go:171 | every byte the decoder accepts is the symbol of the digit below 83 it reads as; with `CharDecodes`, a byte reads as `d` exactly when it is the symbol of `d` |
| Base83.Append1 | blurhash.go:173-175 | one byte is appended, `dst` is kept as the prefix, and the byte is the symbol of `v % 83` |
| Base83.DecodeAppend1 | blurhash.go:173-175 | the appended byte decodes to `v % 83` |
| Base83.Append2 | blurhash.go:177-179 | two bytes are appended after the kept `dst`: the symbols of `v / 83 % 83` and then of `v % 83` |
| Base83.Append2ByAppend1 | blurhash.go:177-179 | two digits are `append1Base83` of `v / 83` followed by `append1Base83` of `v` |
| Base83.Append2Suffix | blurhash.go:177-179 | the two appended bytes do not depend on what `dst` held |
| Base83.DecodeAppend2 | blurhash.go:177-179 | the two appended bytes decode big-endian to `v % 83^2`, which is `v` itself for `v < 83^2` |
| Base83.Append4 | blurhash.go:181-183 | four bytes are appended after the kept `dst`: the digits of `v` for `83^3`, `83^2`, `83` and `1`, most significant first |
| Base83.Append4ByAppend2 | blurhash.go:181-183 | four digits are `append2Base83` of `v / 83^2` followed by `append2Base83` of `v` |
| Base83.Append4Suffix | blurhash.go:181-183 | the four appended bytes do not depend on what `dst` held |
| Base83.DecodeAppend4 | blurhash.go:181-183 | the four appended bytes decode big-endian to `v % 83^4`, so every 24-bit value comes back whole |
| Base83.DecodeConcat | blurhash.go:177-183 | two digit runs decode as the first run's value shifted past the second, the basis of the nested append helpers |
| Bits.ShiftLeft | blurhash.go:123 | `x << k` is at least `x`, has its `k` low bits clear, and shifts back to `x` |
| Bits.ShiftRight | blurhash.go:50 | `x >> k` is the largest `r` with `r * 2^k <= x`, i.e. the floor of `x / 2^k` |
| Bits.Or | blurhash.go:123 | the bitwise or lies between the larger operand and the sum of both; `OrIntoLowBits` states when it is exactly the sum |
| Bits.And | blurhash.go:50-52 | the bitwise and does not exceed either operand; `AndLowMask` states that a low mask keeps the low bits |
| Bits.OrIntoLowBits | blurhash.go:123 | or-ing a value below `2^k` into `a << k` equals adding it |
| Bits.AndLowMask | blurhash.go:50-52 | `x & (2^k - 1)` is `x % 2^k` |
| Fields.PackShape | blurhash.go:72 | for `1 <= w, h <= 9` the packed shape lies in `[0, 80]`, and `w` and `h` come back as `ps % 9 + 1` and `ps / 9 + 1` |
| Fields.PackDC | blurhash.go:119-124 | the DC value of three bytes is below `2^24` |
| Fields.PackDCBitwise | blurhash.go:123 | the bitwise or of `R<<16`, `G<<8` and `B` equals `R*65536 + G*256 + B` |
| Fields.UnpackPackDC | blurhash.go:119-124 | each byte of the DC colour is recovered from the packed value |
| Fields.PackUnpackDC | blurhash.go:119-124 | every value below `2^24` is the packing of exactly the bytes it splits into |
| Fields.Clamp | blurhash.go:163-165 | `Max(lo, Min(hi, x))` lies in `[lo, hi]`, is `x` inside the range, `lo` below it and `hi` above it |
| Fields.QuantiseAC | blurhash.go:127-129 | each clamped channel is a digit in `[0, 18]`, and a channel already in range is unchanged |
| Fields.PackAC | blurhash.go:130 | three channel digits pack to at most 6858, which is below `83^2` |
| Fields.UnpackPackAC | blurhash.go:130 | each channel digit is recovered by `/361`, `/19 % 19` and `% 19` |
| Fields.PackUnpackAC | blurhash.go:130 | every value up to 6858 is the packing of the digits it splits into |
| Fields.EncodeAC | blurhash.go:126-131 | the integer part of `encodeAC` never exceeds 6858, so it always fits two digits |
| Fields.UnpackEncodeAC | blurhash.go:126-131 | an encoded AC term unpacks to the clamped digits of its floored channels |
| Fields.Top8 | blurhash.go:50-52 | shifting the sample right by 8 and masking with `0xff` gives its second-lowest byte |
| Fields.Top8Of16Bit | blurhash.go:50-52 | on a 16-bit sample the extracted byte is the sample's high byte `p / 256` |
| Fields.Top8OfWidened | blurhash.go:50-52 | an 8-bit channel widened to 16 bits as the or of `c<<8` and `c` extracts back to `c` |
| Hash.EncodedLen | blurhash.go:101-107 | the length is even for all `w`, `h`, and is the bare six-byte header exactly when `w*h == 1`; `EncodedLenRange` bounds it and `Append` grows `dst` by exactly this many bytes |
| Hash.EncodedLenRange | blurhash.go:101-107 | for `1 <= w, h <= 9` the length is even and lies in `[6, 166]`, and it is 6 exactly when there is a single component |
| Hash.ScaleIndex | blurhash.go:74-88 | the scale digit value lies in `[0, 82]`; it is 0 when there are no AC terms, and otherwise the floored maximum clamped to `[0, 82]` |
| Hash.AppendHeader | blurhash.go:72-89 | six bytes follow the kept `dst`: the shape symbol, the scale symbol and the four DC digits |
| Hash.DecodeHeader | blurhash.go:72-89 | the three header fields decode back to the packed shape, the scale index and the DC value |
| Hash.AppendAC | blurhash.go:90-92 | the first `n` AC terms add `2n` bytes after the kept buffer |
| Hash.AppendTerms | blurhash.go:90-92 | the AC loop produces the text `AppendAC` defines for all terms |
| Hash.AppendACPrefix | blurhash.go:90-92 | the text of the first `j` terms is a prefix of the text of the first `n >= j` |
| Hash.ACTermAt | blurhash.go:90-92 | AC term `i` occupies exactly the two bytes at offset `2i`, and they are its two digits |
| Hash.Quantised | blurhash.go:127-129 | entry `i` of the list is the clamped digit triple of AC term `i` |
| Hash.ParseAppendAC | blurhash.go:90-92 | the AC text reads back, term by term, as the clamped digits of the terms |
| Hash.AppendHash | blurhash.go:72-93 | the text `Append` builds: `dst` kept as prefix, then six header bytes and two per AC term; `HeaderLayout`, `TermLayout` and `ParseAppendHash` state its contents |
| Hash.HeaderLayout | blurhash.go:72-89 | in the whole hash, the shape symbol, the scale symbol and the four DC digits come first, in that order |
| Hash.TermLayout | blurhash.go:90-92 | in the whole hash, AC term `i` sits at bytes `6 + 2i` and `7 + 2i` after `dst` |
| Hash.AppendHashLength | blurhash.go:72-93 | the hash grows `dst` by exactly `EncodedLen(w, h)` bytes and keeps `dst` as its prefix; with no AC terms the scale symbol is `'0'` |
| Hash.ParseAppendHash | blurhash.go:72-93 | every assembled hash parses back to `w`, `h`, the scale index, the DC colour and the clamped AC digits |
| Hash.Append | blurhash.go:72-93 | the method builds `AppendHash`, grows `dst` by `EncodedLen(w, h)` bytes, emits `'0'` as the scale symbol when there are no AC terms, and its output parses back to all its fields |
| Hash.Encode | blurhash.go:96-99 | the hash on its own is `Append` to an empty buffer, is `EncodedLen(w, h)` bytes, and parses back to all its fields |
| Hash.NeutralACTerm | blurhash.go:126-131 | a term whose channels all floor to 9 packs to 3429 and is written `"fQ"` |
| Hash.NeutralACImage | blurhash.go:72-93 | when every AC channel floors to 9 and the floored maximum is at most 0, the scale symbol is `'0'` and every AC term is `"fQ"` |

## Left out

- The DCT loop over the pixels with `math.Cos`, and the `factor.Scale` normalisation (`blurhash.go:33-70`, `113-117`). These are floating-point numerics. Their results enter the model only as the integer inputs `dc`, `maxFloor` and `acFloors`.
- The `actualMax` loop and `max = (quantisedMax + 1) / 166` (`blurhash.go:76-81`, `83`). These are float. `maxFloor` stands for `math.Floor(actualMax*166 - 0.5)`, and `max` only feeds the float quantiser of the AC channels.
- The sRGB/linear conversions, `buildToLinearTable` and `init` (`blurhash.go:22-24`, `133-161`). These are float. The DC colour is given as three bytes.
- `signSqrt`, `math.Floor` and the float `clamp` calls (`blurhash.go:127-129`, `167-169`). They are modelled on the integer results of `math.Floor`, which come in as `acFloors` and `maxFloor`. NaN and infinite floats are not modelled.
- `fastAccessor` and the `image.Image` pixel access (`blurhash.go:185-200`). These are type switches over Go library image types. `Top8` models the byte extraction applied to the `uint32` samples they return.
- Hash.Append: requires `1 <= w, h <= 9` and `w*h - 1` AC terms. The source checks neither, and the other inputs are not modelled. Their behaviour in the source is:
  - `w*h > 81` panics at `make([]factor, 81)[:w*h]` (`blurhash.go:27`).
  - A zero `w` or `h` leaves `factors` empty, so `factors[0]` panics (`blurhash.go:64`). A negative count panics at `blurhash.go:27` or `36-37`.
  - Other counts above 9 write a shape digit that the `1..9` decoding does not read back as those counts. With `9h + w < 93` the digit `(h-1)*9 + (w-1)` is below 83. Then either `w > 9` and the digit names another `w`, or `h = 10` and the digit is 81 or 82, outside `[0, 80]`. For example, `w = 10, h = 1` writes 9, the digit of `w = 1, h = 2`, in a text of `EncodedLen(10, 1) = 24` bytes. With `9h + w >= 93` the digit wraps through `v % 83`: `w = 3, h = 10` writes 83, which is `'0'`, the digit of `w = h = 1`.
- Hash.Encode: same preconditions as `Append`. The capacity reserved by `make([]byte, 0, EncodedLen(w, h))` is not modelled, because a sequence has no capacity. The conversion of the bytes to a Go `string` is the identity here.
- Hash.NeutralACImage: its premise is on the floors; the float stage that produces them from the image is not modelled. In the source the premise holds exactly when every AC coefficient `v` has magnitude below about `1/(324*166)`, roughly `1.86e-5`. Then `floor(signSqrt(166*v)*9 + 9.5)` is 9, and `floor(actualMax*166 - 0.5)` is at most 0. Exactly-zero coefficients come only from a black flat image: with the cosine basis of `blurhash.go:41-70`, a flat image of linear colour `c` has AC term `(0, 1)` equal to `2c/W` and `(1, 0)` equal to `2c/H`. A dark enough or large enough flat image also meets the premise. For example, 40x40 of sRGB `(1, 1, 1)` has largest term about `1.5e-5`. A 4x4 flat grey 128 image with `w = 2, h = 1` does not: its term `(0, 1)` is about `0.108`, which gives scale `'H'` and term `"~q"`.
- Base83.Append1: takes `v` as a `nat`. Go's `%` truncates toward zero, so a negative `v` that is not a multiple of 83 makes a negative index and panics, while a negative multiple of 83 appends `'0'`. The encoder never passes a negative value.
- Go's 64-bit `int` is modelled as an unbounded integer. The modelled integers stay small, so Go's `int` cannot wrap on them: shape at most 80, scale at most 82, DC below `2^24`, AC at most 6858, length at most 166. The pixel count `imgH*imgW` (`blurhash.go:65`, `69`) is part of the float stage and is not modelled.
- The decoders (`DigitValue`, `Decode`, `UnpackDC`, `UnpackAC`, `ParseAC`, `Parse`) are not code of this repository. They are reference definitions that state what the encoder's output means.
