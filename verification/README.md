# UTF-8 codec: encoder and width configuration

A Dafny model of the core of a small C library. The library turns an array of
Unicode code points into UTF-8 bytes. The caller stores the code points 1, 2
or 4 bytes wide (the codec's "kind"). The model covers the three operations
that have behaviour:

- `utf8_codec_init` sets the kind to the default of 2 bytes.
- `utf8_codec_config` sets the kind to 1, 2 or 4, and refuses anything else
  with a typed error.
- `utf8_encode` walks the code points in order and picks a 1 to 4 byte
  encoding by numeric range. It packs the bits big-endian into the caller's
  buffer and stops at the first error: a code point above 0x1FFFFF, or one
  whose bytes do not fit in the remaining capacity. Bytes already written stay
  in the buffer. The codec records the last code point fetched, the bytes
  written and the number of code points fully encoded.

Modules:

- `Utf8Types` (`utf8_types.dfy`): the header's declarations. These are the
  byte and code-point types, the kinds, the option, the result codes and the
  codec record with its diagnostics.
- `Utf8Layout` (`utf8_layout.dfy`): the range table and the bit layout of
  section 3 of RFC 3629, widened to 0x1FFFFF as the code does.
  - `EncodeOne` encodes one code point and `EncodeAll` encodes a sequence.
  - The ghost inverses `Reassemble` and `ReassembleAll` exist only to prove
    that the encoding is injective and self-delimiting.
- `Utf8Codec` (`utf8_codec.dfy`): `Init`, `Config` and the `Encode` method.
  - `Encode` rejects a bad kind, then calls the loop `EncodeCodePoints`.
  - The loop writes into a copy of the caller's buffer.
  - Its invariants tie the written prefix and the counters to `EncodeAll`.
  - `AppendEncoding` is one loop step: it stores the next code point's bytes right after the encoded prefix.

The caller's buffer is passed in as a sequence `buff`. Its new contents are
returned as `buff'`. "Nothing else changes" is stated as
`buff'[w..] == buff[w..]`, where `w` is the number of bytes written.

The model follows the code where the code and its own doc comment disagree.
The comment gives U+10FFFF as the last code point. The range constant, and so
the model, accept everything up to 0x1FFFFF. Surrogates (0xD800 to 0xDFFF) are
encoded like any other value.

## Model

| member | source | states |
|---|---|---|
| `Utf8Types.ResultCode` | utf8_codec.h:35-56 | Ok is reported as 0 and every error as a negative code. |
| `Utf8Types.ResultCodeInjective` | utf8_codec.h:37-56 | Distinct results have distinct numeric codes. |
| `Utf8Layout.EncodedLength` | utf8_codec.c:49-63 | Every code point up to 0x1FFFFF gets a length from 1 to 4. The code point lies in the [min, max] range of that length. |
| `Utf8Layout.EncodedLengthIsShortestFit` | utf8_codec.c:38-63 | Holds in both directions: a code point takes n bytes exactly when it fits the n-byte payload (7, 11, 16 or 21 bits) and, for n > 1, does not fit the (n-1)-byte payload. So the four ranges are disjoint and cover 0..0x1FFFFF. |
| `Utf8Layout.RangesContiguous` | utf8_codec.c:49-63 | The range table starts at 0. Each range starts one past the end of the previous one. The last range ends at 0x1FFFFF. |
| `Utf8Layout.EncodeOne` | utf8_codec.c:140-169 | The encoding of a code point has exactly the length its range fixes. |
| `Utf8Layout.EncodeOneLayout` | utf8_codec.c:145-169 | The first byte is 0xxxxxxx, 110xxxxx, 1110xxxx or 11110xxx, matching the length. Every later byte is 10xxxxxx. |
| `Utf8Layout.ReassembleEncodeOne` | utf8_codec.c:145-169 | Put the first byte's payload bits first, then six bits from each later byte in order. The result is the original code point, so the bits are packed most significant first and none is lost. |
| `Utf8Layout.EncodeOneInjective` | utf8_codec.c:140-169 | Distinct code points have distinct encodings. |
| `Utf8Layout.EncodeOneExamples` | utf8_codec.c:140-169 | 0x7F encodes as 7F, 0x80 as C2 80 and 0x800 as E0 A0 80. 0x10000 encodes as F0 90 80 80 and 0x1FFFFF as F7 BF BF BF. |
| `Utf8Layout.EncodeAll` | utf8_codec.c:125-182 | Encoding n code points yields between n and 4n bytes. |
| `Utf8Layout.EncodeAllAppend` | utf8_codec.c:125-182 | Encoding a concatenation is the concatenation of the encodings. |
| `Utf8Layout.EncodeAllExtend` | utf8_codec.c:140-177 | Encoding one more code point appends exactly that code point's bytes to the buffer prefix. |
| `Utf8Layout.ReassembleAllEncodeAll` | utf8_codec.c:125-182 | Split an encoded sequence at the lengths its first bytes announce, then reassemble each part. The result is the original code points. |
| `Utf8Layout.EncodeAllInjective` | utf8_codec.c:125-182 | Distinct code-point sequences have distinct encodings. |
| `Utf8Codec.Init` | utf8_codec.c:67-71 | Init always returns Ok. Afterwards the kind is the 2-byte default, which is a valid kind. The diagnostics are untouched. |
| `Utf8Codec.Config` | utf8_codec.c:73-96 | Returns Ok exactly when the option is "set kind" and the value is 1, 2 or 4; the kind is then that value. An unknown option returns BadOpt. A bad value returns BadKind. Every refusal leaves the codec unchanged. The diagnostics never change. |
| `Utf8Codec.ConfigIdempotent` | utf8_codec.c:76-89 | Applying the same configuration twice has the same result and the same codec as applying it once. |
| `Utf8Codec.ConfigPreservesValidKind` | utf8_codec.c:75-95 | No configuration call can leave a codec with a valid kind holding an invalid one. |
| `Utf8Codec.ConfigDefaultAfterInit` | utf8_codec.c:67-83 | Setting the default kind after init succeeds and changes nothing. |
| `Utf8Codec.NarrowSlotsEncodable` | utf8_codec.c:128-137 | Values read from 1- or 2-byte slots never exceed 0x1FFFFF. |
| `Utf8Codec.StoreBytes` | utf8_codec.c:145-169 | The bytes of one code point are stored in order at the write position. Every other buffer byte is unchanged. |
| `Utf8Codec.Encode` | utf8_codec.c:98-192 | The result is Ok, NoBuff, BadCp or BadKind, never anything else. An invalid kind returns BadKind and changes neither the codec nor the buffer. Otherwise the kind is kept and the diagnostics follow `EncodeCodePoints`. BadCp is unreachable with 1- or 2-byte slots. |
| `Utf8Codec.EncodeCodePoints` | utf8_codec.c:125-190 | Bytes written equal `encoded_no_buff` and never exceed `max_buff_size`. They are exactly the encodings of the first `encoded_cp_num` code points, and bytes after them are unchanged. The status is one of three. Ok: all code points were encoded. BadCp: the next code point exceeds 0x1FFFFF, whatever the capacity. NoBuff: the next code point is valid but does not fit in the remaining capacity. `code_point` is the last value fetched, or 0 for an empty input. |

## Left out

- `utf8_decode` (utf8_codec.c:194-199) is an empty stub that returns OK. It has no behaviour to model. The overlong and truncation rules a full decoder would need are not modelled as if the code implemented them. `Reassemble` and `ReassembleAll` are ghost and serve only the injectivity proofs.
- Untyped memory access:
  - `utf8_codec_config` takes the kind through `void *arg`. The model takes the `int` value directly.
  - `utf8_encode` reads the code-point array through a `void *` at 1, 2 or 4 bytes per slot. The model takes a `seq<Ucs4>` whose length is `cp_num`, with the requirement `SlotsFit` that each value fits the configured slot width.
  - The C code does not check that the array holds `cp_num` slots or that the buffer holds `max_buff_size` bytes. The model states the buffer condition as `maxBuffSize <= |buff|`.
- The computed-goto dispatch on the kind (utf8_codec.c:101-126) is a plain case split. It has no semantic content.
- The result codes `UTF8_ERR` and `UTF8_ERR_NO_MEM` (utf8_codec.h:41-44) are never returned by any operation, so `Status` has no constructor for them.
- `size_t` counters and the 32-bit `utf8_opt_t` are unbounded `nat`s. The counters are bounded by the buffer and array lengths, so no wrap-around can occur.
- Order of checks: for each code point the C code checks the range first, then the capacity for that range's length. `EncodeCodePoints` checks "above 0x1FFFFF" first, then capacity against `EncodedLength`. The outcome is the same in every case.
- `StoreBytes` writes the bytes `EncodeOne` computes. The shifts and masks of utf8_codec.c:145-169 live in `EncodeOne`, so they are not repeated at each store.
- Uninitialised memory: the C init never sets the diagnostics, so they stay indeterminate until the first encode. The model's `Init` keeps whatever diagnostics the input codec had.
