/** The SFF sprite-container header and its decoder: a 12-byte signature, four
    version bytes, a discarded word, then one of two fixed little-endian
    layouts chosen by the last version byte `ver0`. */
module Sff {
  import opened LittleEndian
  import opened Reader

  /** The header record as the engine keeps it. */
  datatype SffHeader = SffHeader(
    ver0: uint8, ver1: uint8, ver2: uint8, ver3: uint8,
    firstSpriteHeaderOffset: uint32,
    firstPaletteHeaderOffset: uint32,
    numberOfPalettes: uint32,
    numberOfSprites: uint32)

  /** A decoded header, the two caller-owned offset slots after decoding, and
      how many bytes of the file the decoder consumed. */
  datatype Decoded = Decoded(header: SffHeader, lofs: uint32, tofs: uint32, consumed: nat)

  /** Bytes the decoder must be able to read before it reaches a verdict for
      a given dispatch byte: the whole layout for versions 1 and 2, and the
      signature, version bytes and discarded word for any other value. */
  function BytesBeforeVerdict(ver0: uint8): nat {
    if ver0 == 1 then 32 else if ver0 == 2 then 64 else 20
  }

  /** Decode a header from the start of `data`. `lofs` and `tofs` are the
      values of the caller's slots before the call; only version 2 overwrites
      them. Each step is one read of the original, in the original's order. */
  function Parse(data: seq<uint8>, lofs: uint32, tofs: uint32): Result<Decoded> {
    var pos :- ReadSignature(data);
    var v3 :- ReadU8(data, pos);
    var v2 :- ReadU8(data, v3.next);
    var v1 :- ReadU8(data, v2.next);
    var v0 :- ReadU8(data, v1.next);
    var pad :- ReadU32(data, v0.next);
    if v0.value == 1 then
      ParseV1(data, pad.next, v0.value, v1.value, v2.value, v3.value, lofs, tofs)
    else if v0.value == 2 then
      ParseV2(data, pad.next, v0.value, v1.value, v2.value, v3.value, lofs, tofs)
    else
      Fail(UnsupportedVersion(v0.value))
  }

  /** Version 1: sprite count, sprite-header offset, one discarded word; no
      palette chain, and the caller's lofs/tofs are left alone. */
  function ParseV1(data: seq<uint8>, pos: nat, ver0: uint8, ver1: uint8, ver2: uint8, ver3: uint8,
                   lofs: uint32, tofs: uint32): Result<Decoded>
    requires pos <= |data|
  {
    var sprites :- ReadU32(data, pos);
    var spriteOffset :- ReadU32(data, sprites.next);
    var pad :- ReadU32(data, spriteOffset.next);
    Ok(Decoded(
         SffHeader(ver0, ver1, ver2, ver3,
                   firstSpriteHeaderOffset := spriteOffset.value,
                   firstPaletteHeaderOffset := 0,
                   numberOfPalettes := 0,
                   numberOfSprites := sprites.value),
         lofs, tofs, pad.next))
  }

  /** Version 2: four discarded words, then sprite-header offset, sprite
      count, palette-header offset, palette count, lofs, a discarded word
      and tofs. */
  function ParseV2(data: seq<uint8>, pos: nat, ver0: uint8, ver1: uint8, ver2: uint8, ver3: uint8,
                   lofs: uint32, tofs: uint32): Result<Decoded>
    requires pos <= |data|
  {
    var start :- SkipU32s(data, pos, 4);
    var spriteOffset :- ReadU32(data, start);
    var sprites :- ReadU32(data, spriteOffset.next);
    var paletteOffset :- ReadU32(data, sprites.next);
    var palettes :- ReadU32(data, paletteOffset.next);
    var lofs' :- ReadU32(data, palettes.next);
    var pad :- ReadU32(data, lofs'.next);
    var tofs' :- ReadU32(data, pad.next);
    Ok(Decoded(
         SffHeader(ver0, ver1, ver2, ver3,
                   firstSpriteHeaderOffset := spriteOffset.value,
                   firstPaletteHeaderOffset := paletteOffset.value,
                   numberOfPalettes := palettes.value,
                   numberOfSprites := sprites.value),
         lofs'.value, tofs'.value, tofs'.next))
  }

  /** The header format as a table of fixed byte offsets, independent of
      the cursor: what a decoder of this format must return for `data`. */
  function DecodeAtOffsets(data: seq<uint8>, lofs: uint32, tofs: uint32): Result<Decoded> {
    if |data| == 0 then Fail(Truncated)
    else if !HasSignature(data) then Fail(BadSignature)
    else if |data| < 16 || |data| < BytesBeforeVerdict(data[15]) then Fail(Truncated)
    else if data[15] == 1 then
      Ok(Decoded(SffHeader(data[15], data[14], data[13], data[12],
                           firstSpriteHeaderOffset := LE32(data, 24),
                           firstPaletteHeaderOffset := 0,
                           numberOfPalettes := 0,
                           numberOfSprites := LE32(data, 20)),
                 lofs, tofs, 32))
    else if data[15] == 2 then
      Ok(Decoded(SffHeader(data[15], data[14], data[13], data[12],
                           firstSpriteHeaderOffset := LE32(data, 36),
                           firstPaletteHeaderOffset := LE32(data, 44),
                           numberOfPalettes := LE32(data, 48),
                           numberOfSprites := LE32(data, 40)),
                 LE32(data, 52), LE32(data, 60), 64))
    else
      Fail(UnsupportedVersion(data[15]))
  }

  /** The sequential, cursor-driven decoder agrees with the fixed-offset
      table of the format on every input: same verdict, same error, same
      fields, same number of bytes consumed. */
  lemma ParseMatchesOffsets(data: seq<uint8>, lofs: uint32, tofs: uint32)
    ensures Parse(data, lofs, tofs) == DecodeAtOffsets(data, lofs, tofs)
  {
  }
}
