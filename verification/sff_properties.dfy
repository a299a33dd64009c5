/** What the SFF header decoder promises its callers, each stated for every
    input and proved through the fixed-offset description of the format. */
module SffProperties {
  import opened LittleEndian
  import opened Reader
  import opened Sff

  /** Without the 12-byte signature nothing else is read: an empty file is an
      end-of-file error, anything else a signature error, whatever follows. */
  lemma SignatureRequired(data: seq<uint8>, lofs: uint32, tofs: uint32)
    requires !HasSignature(data)
    ensures Parse(data, lofs, tofs) == Fail(if |data| == 0 then Truncated else BadSignature)
  {
    ParseMatchesOffsets(data, lofs, tofs);
  }

  /** The version bytes are stored in reverse: offset 12 is ver3 and offset
      15 is ver0. */
  lemma VersionByteMapping(data: seq<uint8>, lofs: uint32, tofs: uint32)
    ensures Parse(data, lofs, tofs).Ok? ==>
              var h := Parse(data, lofs, tofs).value.header;
              h.ver3 == data[12] && h.ver2 == data[13] && h.ver1 == data[14] && h.ver0 == data[15]
  {
    ParseMatchesOffsets(data, lofs, tofs);
  }

  /** Only ver0 selects the layout: with a signature and the first 20 bytes
      present, any ver0 other than 1 and 2 is rejected, whatever comes after. */
  lemma UnsupportedVersionRejected(data: seq<uint8>, lofs: uint32, tofs: uint32)
    requires HasSignature(data) && |data| >= 20
    requires data[15] != 1 && data[15] != 2
    ensures Parse(data, lofs, tofs) == Fail(UnsupportedVersion(data[15]))
  {
    ParseMatchesOffsets(data, lofs, tofs);
  }

  /** Version 1: sprite count at 20, sprite-header offset at 24, no palette
      chain, and the caller's lofs/tofs come back unchanged. */
  lemma Version1Fields(data: seq<uint8>, lofs: uint32, tofs: uint32)
    requires HasSignature(data) && |data| >= 32 && data[15] == 1
    ensures Parse(data, lofs, tofs).Ok?
    ensures var d := Parse(data, lofs, tofs).value;
            && d.header.numberOfSprites == LE32(data, 20)
            && d.header.firstSpriteHeaderOffset == LE32(data, 24)
            && d.header.firstPaletteHeaderOffset == 0
            && d.header.numberOfPalettes == 0
            && d.lofs == lofs && d.tofs == tofs
  {
    ParseMatchesOffsets(data, lofs, tofs);
  }

  /** Version 2: the six fields sit at 36, 40, 44, 48, 52 and 60, and lofs
      and tofs are overwritten from the file. */
  lemma Version2Fields(data: seq<uint8>, lofs: uint32, tofs: uint32)
    requires HasSignature(data) && |data| >= 64 && data[15] == 2
    ensures Parse(data, lofs, tofs).Ok?
    ensures var d := Parse(data, lofs, tofs).value;
            && d.header.firstSpriteHeaderOffset == LE32(data, 36)
            && d.header.numberOfSprites == LE32(data, 40)
            && d.header.firstPaletteHeaderOffset == LE32(data, 44)
            && d.header.numberOfPalettes == LE32(data, 48)
            && d.lofs == LE32(data, 52)
            && d.tofs == LE32(data, 60)
  {
    ParseMatchesOffsets(data, lofs, tofs);
  }

  /** Decoding succeeds exactly when the signature is there, ver0 is 1 or 2,
      and the whole layout for that version is present. */
  lemma SucceedsIff(data: seq<uint8>, lofs: uint32, tofs: uint32)
    ensures Parse(data, lofs, tofs).Ok? <==>
              HasSignature(data) && |data| >= 16 && ((data[15] == 1 && |data| >= 32) || (data[15] == 2 && |data| >= 64))
  {
    ParseMatchesOffsets(data, lofs, tofs);
  }

  /** A file cut short after a valid signature fails with an end-of-file
      error; a missing field is never filled with zero. */
  lemma TruncationFails(data: seq<uint8>, lofs: uint32, tofs: uint32)
    requires HasSignature(data)
    requires |data| < 16 || |data| < BytesBeforeVerdict(data[15])
    ensures Parse(data, lofs, tofs) == Fail(Truncated)
  {
    ParseMatchesOffsets(data, lofs, tofs);
  }

  /** A successful decode consumes 32 bytes for version 1 and 64 for
      version 2, and the decoded version is one of those two. */
  lemma BytesConsumed(data: seq<uint8>, lofs: uint32, tofs: uint32)
    ensures Parse(data, lofs, tofs).Ok? ==>
              var d := Parse(data, lofs, tofs).value;
              && (d.header.ver0 == 1 || d.header.ver0 == 2)
              && d.consumed == BytesBeforeVerdict(d.header.ver0) <= |data|
  {
    ParseMatchesOffsets(data, lofs, tofs);
  }

  /** Offsets of the uint32 fields a layout keeps. */
  predicate IsFieldOffset(ver0: uint8, off: nat) {
    || (ver0 == 1 && (off == 20 || off == 24))
    || (ver0 == 2 && (off == 36 || off == 40 || off == 44 || off == 48 || off == 52 || off == 60))
  }

  /** The fixed-offset table reads the same from two inputs that agree on
      every field it keeps and on the signature and version bytes. */
  lemma OffsetsAgree(a: seq<uint8>, b: seq<uint8>, lofs: uint32, tofs: uint32)
    requires |a| >= 16 && |b| >= 16 && a[..16] == b[..16]
    requires |a| >= BytesBeforeVerdict(a[15]) && |b| >= BytesBeforeVerdict(a[15])
    requires forall off: nat :: IsFieldOffset(a[15], off)
               ==> LE32(a, off) == LE32(b, off)
    ensures DecodeAtOffsets(a, lofs, tofs) == DecodeAtOffsets(b, lofs, tofs)
  {
    assert a[..12] == a[..16][..12] == b[..16][..12] == b[..12];
    assert a[12..16] == b[12..16];
    assert a[12] == b[12] && a[13] == b[13] && a[14] == b[14] && a[15] == b[15];
  }

  /** Once the bytes a verdict needs are present, bytes after them change
      nothing: not the verdict, the error, or any field. */
  lemma TrailingBytesIgnored(data: seq<uint8>, rest: seq<uint8>, lofs: uint32, tofs: uint32)
    requires |data| >= 16 && |data| >= BytesBeforeVerdict(data[15])
    ensures Parse(data + rest, lofs, tofs) == Parse(data, lofs, tofs)
  {
    var full := data + rest;
    assert full[..16] == data[..16];
    forall off: nat | off + 4 <= |data|
      ensures LE32(full, off) == LE32(data, off)
    {
      assert full[off..off + 4] == data[off..off + 4];
      LE32Local(full, off, data, off);
    }
    OffsetsAgree(data, full, lofs, tofs);
    ParseMatchesOffsets(data, lofs, tofs);
    ParseMatchesOffsets(full, lofs, tofs);
  }

  /** Offsets the decoder reads past without keeping: the word at 16, the
      trailing word of version 1, the four leading words and the word before
      tofs in version 2, and everything after the layout. */
  predicate IsIgnoredOffset(ver0: uint8, i: nat) {
    || (16 <= i < 20)
    || (ver0 == 1 && 28 <= i < 32)
    || (ver0 == 2 && (20 <= i < 36 || 56 <= i < 60))
    || i >= BytesBeforeVerdict(ver0)
  }

  /** Changing one ignored byte changes nothing in the outcome. */
  lemma IgnoredByteIrrelevant(data: seq<uint8>, i: nat, b: uint8, lofs: uint32, tofs: uint32)
    requires |data| >= 16 && i < |data|
    requires IsIgnoredOffset(data[15], i)
    ensures Parse(data[i := b], lofs, tofs) == Parse(data, lofs, tofs)
  {
    var data' := data[i := b];
    assert data'[..16] == data[..16];
    if |data| >= BytesBeforeVerdict(data[15]) {
      forall off: nat | IsFieldOffset(data[15], off)
        ensures LE32(data, off) == LE32(data', off)
      {
        assert data'[off..off + 4] == data[off..off + 4];
        LE32Local(data', off, data, off);
      }
      OffsetsAgree(data, data', lofs, tofs);
    }
    ParseMatchesOffsets(data, lofs, tofs);
    ParseMatchesOffsets(data', lofs, tofs);
  }

  /** Twelve signature bytes followed by `tail`. */
  function WithSignature(tail: seq<uint8>): (r: seq<uint8>)
    ensures HasSignature(r) && r[12..] == tail
  {
    assert (Signature + tail)[..12] == Signature;
    Signature + tail
  }

  /** A version-1 file laid out with the dispatch byte 01 first, at offset 12,
      is rejected: the code reads ver0 from offset 15, which here is 00. */
  lemma DispatchByteFirstRejected(lofs: uint32, tofs: uint32)
    ensures Parse(WithSignature([1, 0, 0, 0,  0, 0, 0, 0,  5, 0, 0, 0,  0x20, 0, 0, 0,  0, 0, 0, 0]), lofs, tofs)
            == Fail(UnsupportedVersion(0))
  {
    var data := WithSignature([1, 0, 0, 0,  0, 0, 0, 0,  5, 0, 0, 0,  0x20, 0, 0, 0,  0, 0, 0, 0]);
    assert data[15] == 0;
    UnsupportedVersionRejected(data, lofs, tofs);
  }

  /** The same file with 01 at offset 15 decodes to five sprites whose
      headers start at 0x20, and no palettes. */
  lemma DispatchByteLastAccepted(lofs: uint32, tofs: uint32)
    ensures Parse(WithSignature([0, 0, 0, 1,  0, 0, 0, 0,  5, 0, 0, 0,  0x20, 0, 0, 0,  0, 0, 0, 0]), lofs, tofs)
            == Ok(Decoded(SffHeader(1, 0, 0, 0, 0x20, 0, 0, 5), lofs, tofs, 32))
  {
    var data := WithSignature([0, 0, 0, 1,  0, 0, 0, 0,  5, 0, 0, 0,  0x20, 0, 0, 0,  0, 0, 0, 0]);
    var tail := data[12..];
    assert data[12] == tail[0] == 0 && data[13] == tail[1] == 0;
    assert data[14] == tail[2] == 0 && data[15] == tail[3] == 1;
    assert data[20] == tail[8] == 5 && data[21] == tail[9] == 0 && data[22] == tail[10] == 0 && data[23] == tail[11] == 0;
    assert data[24] == tail[12] == 0x20 && data[25] == tail[13] == 0 && data[26] == tail[14] == 0 && data[27] == tail[15] == 0;
    ParseMatchesOffsets(data, lofs, tofs);
  }
}
