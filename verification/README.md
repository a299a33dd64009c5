# SFF header decoder

This project models the header decoder of the SFF sprite-container format used by the
Ikemen-GO engine, `(*SffHeader).read` in `src/image.go`, and proves what it does.

A header is laid out like this:

- a 12-byte signature, `ElecbyteSpr` followed by a NUL;
- four version bytes, stored as `ver3, ver2, ver1, ver0`;
- one discarded little-endian uint32;
- one of two fixed layouts, chosen by `ver0`:
  - version 1: sprite count at 20, sprite-header offset at 24, then a discarded word. The header is 32 bytes. There is no palette chain, and the caller's `lofs`/`tofs` slots are left alone.
  - version 2: four discarded words at 20–35, then sprite-header offset at 36, sprite count at 40, palette-header offset at 44, palette count at 48, `lofs` at 52, a discarded word at 56 and `tofs` at 60. The header is 64 bytes.

Any other `ver0` is rejected.

The file is an immutable `seq<uint8>` read through a cursor (module `Reader`). Each byte or word
read either returns its value and the advanced position or fails with `Truncated`. The
signature read returns only the position after the signature. It fails with `Truncated` on an
empty file and with `BadSignature` otherwise. `Sff.Parse` performs
the original's reads in the original's order. `Sff.DecodeAtOffsets` is an independent
description of the format as a table of fixed byte offsets. `Sff.ParseMatchesOffsets` proves
the two equal on every input, and every other property is derived from it. `SffEncode.Encode`
writes a header; round-trip lemmas in both directions show that decoding loses nothing except
the padding.

Modules:

- `LittleEndian` (`little_endian.dfy`): `uint8`/`uint32`, `LE32` and its inverse `EncodeLE32`.
- `Reader` (`reader.dfy`): `Result`, `DecodeError`, the signature read, and the byte and word reads.
- `Sff` (`sff_header.dfy`): the `SffHeader` record, `Parse`, and the fixed-offset table.
- `SffProperties` (`sff_properties.dfy`): the caller-facing properties.
- `SffEncode` (`sff_encode.dfy`): the encoder and the round trips.

Facts about the code that the model keeps:

- **Version byte order.** Byte 12 is stored in `ver3` and byte 15 in `ver0`, the dispatch
  byte (`src/image.go:133-149`). A version-1 header with `01` at offset 12 and `00` at
  offset 15 is rejected with `UnsupportedVersion(0)` (`DispatchByteFirstRejected`). The same
  bytes with `01` at offset 15 decode to 5 sprites at offset 0x20
  (`DispatchByteLastAccepted`).
- **Short signature.** The signature is one plain `Read` into a 12-byte buffer
  (`src/image.go:122-129`). A file with no bytes at all fails with end of file (`Truncated`).
  A file with 1 to 11 bytes returns a short read without an error, and the comparison then
  fails with `BadSignature`.
- **Header lengths.** Version 1 reads 32 bytes. Version 2 reads 64 bytes: 20 before the
  layout, four discarded words, then seven words up to `tofs` at offset 60
  (`src/image.go:161-187`).

## Model

| member | source | states |
|---|---|---|
| Sff.ParseMatchesOffsets | src/image.go:121-192 | For every input, the sequential reader gives exactly the fixed-offset table's verdict: the same error, the same fields and the same byte count |
| Reader.ReadSignature | src/image.go:122-129 | The signature read succeeds exactly when the first 12 bytes are `ElecbyteSpr\0`. It fails with end of file exactly when the file is empty, and otherwise with a signature error |
| Reader.ReadU8 | src/image.go:133-144 | A byte read succeeds exactly when a byte remains. It yields that byte, advances the cursor by 1, and otherwise fails with `Truncated` |
| Reader.ReadU32 | src/image.go:130-131 | A uint32 read succeeds exactly when four bytes remain. Its value's little-endian encoding is those four bytes, and it advances the cursor by 4 |
| Reader.SkipU32s | src/image.go:162-166 | Discarding `count` words succeeds exactly when 4·count bytes remain, and it advances the cursor by exactly that much |
| SffProperties.SignatureRequired | src/image.go:122-129 | Without the signature, decoding fails whatever follows: `Truncated` for an empty file, `BadSignature` otherwise |
| SffProperties.VersionByteMapping | src/image.go:133-144 | On success, ver3, ver2, ver1 and ver0 are the bytes at offsets 12, 13, 14 and 15 |
| SffProperties.UnsupportedVersionRejected | src/image.go:145-190 | With a signature and 20 bytes present, a ver0 other than 1 or 2 fails with `UnsupportedVersion(ver0)`, whatever the later bytes are |
| SffProperties.Version1Fields | src/image.go:150-160 | Version 1: sprite count is LE32@20, sprite-header offset is LE32@24, palette offset and count are 0, and lofs/tofs keep the caller's values |
| SffProperties.Version2Fields | src/image.go:161-187 | Version 2: the fields are LE32 at offsets 36, 40, 44 and 48, lofs is LE32@52 and tofs is LE32@60 |
| SffProperties.SucceedsIff | src/image.go:121-192 | Decoding succeeds if and only if the signature is present, ver0 is 1 with at least 32 bytes, or ver0 is 2 with at least 64 bytes |
| SffProperties.TruncationFails | src/image.go:130-187 | With a valid signature and fewer bytes than the layout needs, decoding fails with `Truncated`. A missing field is never zero-filled |
| SffProperties.BytesConsumed | src/image.go:133-187 | A successful decode is version 1 or 2 and consumes exactly 32 or 64 bytes |
| SffProperties.TrailingBytesIgnored | src/image.go:133-190 | Once the bytes a verdict needs are present, appending any bytes changes nothing |
| SffProperties.IgnoredByteIrrelevant | src/image.go:145-187 | Changing any byte of the discarded words, or any byte after the layout, leaves the outcome unchanged |
| SffProperties.DispatchByteFirstRejected | src/image.go:133-149 | A version-1 image with the dispatch byte written first, at offset 12, is rejected with `UnsupportedVersion(0)` |
| SffProperties.DispatchByteLastAccepted | src/image.go:133-160 | The same image with `01` at offset 15 decodes to 5 sprites at offset 0x20 and no palettes, and keeps the caller's lofs/tofs |
| LittleEndian.EncodeLE32 | src/image.go:130-131 | Writing a uint32 as four little-endian bytes and reading them back gives the value |
| LittleEndian.EncodeOfLE32 | src/image.go:130-131 | Reading four bytes as a little-endian uint32 and writing it back gives the four bytes |
| LittleEndian.LE32Injective | src/image.go:130-131 | Two 4-byte windows that read the same uint32 hold the same bytes |
| SffEncode.RoundTrip | src/image.go:150-187 | Decoding an encoded header gives back every field, with any padding and any trailing bytes. Version 2 returns lofs/tofs; version 1 keeps the caller's values |
| SffEncode.DecodedPrefixIsEncoding | src/image.go:133-187 | The prefix a successful decode consumes equals the encoding of the decoded header with the padding the file held |

## Left out

- `gltest` (`src/image.go:10-111`) compiles and links GPU shader programs through an OpenGL binding and panics on error. It has no pure behaviour to model.
- File I/O. The file is an immutable byte sequence. A read of the 12-byte signature buffer is taken to return `min(12, remaining)` bytes, which is how a regular file behaves. A device that returns fewer bytes while more remain is not modelled.
- Error detail. Go's `io.EOF` and `io.ErrUnexpectedEOF` both become `Truncated`. The two format errors become `BadSignature` and `UnsupportedVersion`; their message strings are not modelled.
- Partial mutation on failure. On error the Go code may already have written some fields of the header or of the `lofs`/`tofs` slots. The model returns only the error, and callers must discard the record anyway.
- `SffHeader` storage. The record is returned by value instead of filled through a pointer. The caller's `lofs`/`tofs` slots are modelled as input values that come back in the result.
