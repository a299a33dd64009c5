/** Writing an SFF header: the inverse of the decoder, used to state that
    the two layouts lose nothing and add nothing. */
module SffEncode {
  import opened LittleEndian
  import opened Reader
  import opened Sff
  import opened SffProperties

  /** The little-endian bytes of a run of uint32 words, in order. */
  function Words(ws: seq<uint32>): (r: seq<uint8>)
    ensures |r| == 4 * |ws|
  {
    if ws == [] then [] else EncodeLE32(ws[0]) + Words(ws[1..])
  }

  /** Word k of a run occupies bytes 4k .. 4k+4 of its encoding. */
  lemma {:induction false} WordAt(ws: seq<uint32>, k: nat)
    requires k < |ws|
    ensures Words(ws)[4 * k..4 * k + 4] == EncodeLE32(ws[k])
    decreases k
  {
    var tail := Words(ws[1..]);
    assert Words(ws) == EncodeLE32(ws[0]) + tail;
    if k > 0 {
      WordAt(ws[1..], k - 1);
      assert Words(ws)[4 * k..4 * k + 4] == tail[4 * (k - 1)..4 * (k - 1) + 4];
    }
  }

  /** The n uint32 words stored little-endian from byte `start` of `data`. */
  function WordsAt(data: seq<uint8>, start: nat, n: nat): (r: seq<uint32>)
    requires start + 4 * n <= |data|
    ensures |r| == n
    ensures forall k :: 0 <= k < n ==> r[k] == LE32(data, start + 4 * k)
    decreases n
  {
    if n == 0 then [] else [LE32(data, start)] + WordsAt(data, start + 4, n - 1)
  }

  /** Reading words out of a byte range and writing them back gives the range. */
  lemma {:induction false} WordsOfWordsAt(data: seq<uint8>, start: nat, n: nat)
    requires start + 4 * n <= |data|
    ensures Words(WordsAt(data, start, n)) == data[start..start + 4 * n]
    decreases n
  {
    if n > 0 {
      var ws := WordsAt(data, start, n);
      assert ws[1..] == WordsAt(data, start + 4, n - 1);
      WordsOfWordsAt(data, start + 4, n - 1);
      EncodeOfLE32(data, start);
      assert data[start..start + 4 * n] == data[start..start + 4] + data[start + 4..start + 4 * n];
    }
  }

  /** A header the format can carry: version 1 has no palette chain. */
  predicate Encodable(h: SffHeader) {
    || (h.ver0 == 1 && h.firstPaletteHeaderOffset == 0 && h.numberOfPalettes == 0)
    || h.ver0 == 2
  }

  /** Discarded words of each layout: the word at 16 and at 28 for version
      1; at 16, 20, 24, 28, 32 and 56 for version 2. */
  function PaddingWords(ver0: uint8): nat {
    if ver0 == 1 then 2 else 6
  }

  /** The words after the version bytes, in file order. */
  function Layout(h: SffHeader, lofs: uint32, tofs: uint32, pads: seq<uint32>): (ws: seq<uint32>)
    requires Encodable(h) && |pads| == PaddingWords(h.ver0)
    ensures 16 + 4 * |ws| == BytesBeforeVerdict(h.ver0)
  {
    if h.ver0 == 1 then
      [pads[0], h.numberOfSprites, h.firstSpriteHeaderOffset, pads[1]]
    else
      [pads[0], pads[1], pads[2], pads[3], pads[4],
       h.firstSpriteHeaderOffset, h.numberOfSprites,
       h.firstPaletteHeaderOffset, h.numberOfPalettes,
       lofs, pads[5], tofs]
  }

  /** The bytes of a header. Version 1 has no room for lofs and tofs, so
      they are not written. */
  function Encode(h: SffHeader, lofs: uint32, tofs: uint32, pads: seq<uint32>): (r: seq<uint8>)
    requires Encodable(h) && |pads| == PaddingWords(h.ver0)
    ensures HasSignature(r) && |r| == BytesBeforeVerdict(h.ver0) && r[15] == h.ver0
  {
    var r := Signature + [h.ver3, h.ver2, h.ver1, h.ver0] + Words(Layout(h, lofs, tofs, pads));
    assert r[..12] == Signature;
    r
  }

  /** The discarded words a decoded file actually held. */
  function PaddingOf(data: seq<uint8>, ver0: uint8): (pads: seq<uint32>)
    requires |data| >= BytesBeforeVerdict(ver0) && (ver0 == 1 || ver0 == 2)
    ensures |pads| == PaddingWords(ver0)
  {
    if ver0 == 1 then [LE32(data, 16), LE32(data, 28)]
    else [LE32(data, 16), LE32(data, 20), LE32(data, 24), LE32(data, 28), LE32(data, 32), LE32(data, 56)]
  }

  /** Word k of the layout is what LE32 reads at offset 16 + 4k of the encoding. */
  lemma EncodedWord(h: SffHeader, lofs: uint32, tofs: uint32, pads: seq<uint32>, k: nat)
    requires Encodable(h) && |pads| == PaddingWords(h.ver0)
    requires k < |Layout(h, lofs, tofs, pads)|
    ensures LE32(Encode(h, lofs, tofs, pads), 16 + 4 * k) == Layout(h, lofs, tofs, pads)[k]
  {
    var ws := Layout(h, lofs, tofs, pads);
    var prefix := Signature + [h.ver3, h.ver2, h.ver1, h.ver0];
    var e := Encode(h, lofs, tofs, pads);
    assert e == prefix + Words(ws);
    WordAt(ws, k);
    assert e[16 + 4 * k..16 + 4 * k + 4] == Words(ws)[4 * k..4 * k + 4];
    LE32Local(e, 16 + 4 * k, EncodeLE32(ws[k]), 0);
  }

  /** The fixed-offset table reads every field of an encoded header back. */
  lemma OffsetsOfEncoding(h: SffHeader, lofs: uint32, tofs: uint32, pads: seq<uint32>, lofsIn: uint32, tofsIn: uint32)
    requires Encodable(h) && |pads| == PaddingWords(h.ver0)
    ensures DecodeAtOffsets(Encode(h, lofs, tofs, pads), lofsIn, tofsIn)
            == Ok(Decoded(h,
                          if h.ver0 == 2 then lofs else lofsIn,
                          if h.ver0 == 2 then tofs else tofsIn,
                          BytesBeforeVerdict(h.ver0)))
  {
    var e := Encode(h, lofs, tofs, pads);
    var prefix := Signature + [h.ver3, h.ver2, h.ver1, h.ver0];
    assert e == prefix + Words(Layout(h, lofs, tofs, pads));
    assert e[12] == h.ver3 && e[13] == h.ver2 && e[14] == h.ver1;
    if h.ver0 == 1 {
      EncodedWord(h, lofs, tofs, pads, 1);
      EncodedWord(h, lofs, tofs, pads, 2);
    } else {
      EncodedWord(h, lofs, tofs, pads, 5);
      EncodedWord(h, lofs, tofs, pads, 6);
      EncodedWord(h, lofs, tofs, pads, 7);
      EncodedWord(h, lofs, tofs, pads, 8);
      EncodedWord(h, lofs, tofs, pads, 9);
      EncodedWord(h, lofs, tofs, pads, 11);
    }
  }

  /** Encoding any header the format can carry, with any padding and any
      trailing bytes, and decoding the result gives the header back. lofs
      and tofs come back for version 2; for version 1 the caller's slots are
      left as they were. */
  lemma RoundTrip(h: SffHeader, lofs: uint32, tofs: uint32, pads: seq<uint32>,
                  rest: seq<uint8>, lofsIn: uint32, tofsIn: uint32)
    requires Encodable(h) && |pads| == PaddingWords(h.ver0)
    ensures Parse(Encode(h, lofs, tofs, pads) + rest, lofsIn, tofsIn)
            == Ok(Decoded(h,
                          if h.ver0 == 2 then lofs else lofsIn,
                          if h.ver0 == 2 then tofs else tofsIn,
                          BytesBeforeVerdict(h.ver0)))
  {
    var e := Encode(h, lofs, tofs, pads);
    TrailingBytesIgnored(e, rest, lofsIn, tofsIn);
    ParseMatchesOffsets(e, lofsIn, tofsIn);
    OffsetsOfEncoding(h, lofs, tofs, pads, lofsIn, tofsIn);
  }

  /** The layout words of a decoded header are the words stored from offset 16. */
  lemma LayoutOfDecoded(data: seq<uint8>, d: Decoded)
    requires Encodable(d.header) && |data| >= BytesBeforeVerdict(d.header.ver0)
    requires d.header.ver0 == 1 ==>
               d.header.numberOfSprites == LE32(data, 20) && d.header.firstSpriteHeaderOffset == LE32(data, 24)
    requires d.header.ver0 == 2 ==>
               && d.header.firstSpriteHeaderOffset == LE32(data, 36)
               && d.header.numberOfSprites == LE32(data, 40)
               && d.header.firstPaletteHeaderOffset == LE32(data, 44)
               && d.header.numberOfPalettes == LE32(data, 48)
               && d.lofs == LE32(data, 52) && d.tofs == LE32(data, 60)
    ensures Layout(d.header, d.lofs, d.tofs, PaddingOf(data, d.header.ver0))
            == WordsAt(data, 16, (BytesBeforeVerdict(d.header.ver0) - 16) / 4)
  {
    var n := (BytesBeforeVerdict(d.header.ver0) - 16) / 4;
    var ws := Layout(d.header, d.lofs, d.tofs, PaddingOf(data, d.header.ver0));
    var read := WordsAt(data, 16, n);
    assert |ws| == |read| == n;
    forall k | 0 <= k < n
      ensures ws[k] == read[k]
    {
      assert read[k] == LE32(data, 16 + 4 * k);
    }
  }

  /** DecodedPrefixIsEncoding, stated over the fixed-offset table. */
  lemma PrefixIsEncodingAtOffsets(data: seq<uint8>, lofsIn: uint32, tofsIn: uint32)
    requires DecodeAtOffsets(data, lofsIn, tofsIn).Ok?
    ensures var d := DecodeAtOffsets(data, lofsIn, tofsIn).value;
            && Encodable(d.header)
            && d.consumed <= |data|
            && data[..d.consumed] == Encode(d.header, d.lofs, d.tofs, PaddingOf(data, d.header.ver0))
  {
    var d := DecodeAtOffsets(data, lofsIn, tofsIn).value;
    var h := d.header;
    assert Encodable(h) && d.consumed == BytesBeforeVerdict(h.ver0) <= |data|;
    var n := (d.consumed - 16) / 4;
    var ws := Layout(h, d.lofs, d.tofs, PaddingOf(data, h.ver0));
    assert ws == WordsAt(data, 16, n) by {
      LayoutOfDecoded(data, d);
    }
    var body := data[16..d.consumed];
    assert Words(ws) == body by {
      WordsOfWordsAt(data, 16, n);
    }
    assert data[..12] == Signature;
    assert data[12..16] == [h.ver3, h.ver2, h.ver1, h.ver0];
    assert data[..d.consumed] == data[..12] + data[12..16] + body;
    assert Encode(h, d.lofs, d.tofs, PaddingOf(data, h.ver0)) == Signature + [h.ver3, h.ver2, h.ver1, h.ver0] + Words(ws);
  }

  /** Every successfully decoded prefix is exactly the encoding of what was
      decoded, with the padding the file held: the decoder drops no byte
      other than padding. */
  lemma DecodedPrefixIsEncoding(data: seq<uint8>, lofsIn: uint32, tofsIn: uint32)
    ensures Parse(data, lofsIn, tofsIn).Ok? ==>
              var d := Parse(data, lofsIn, tofsIn).value;
              && Encodable(d.header)
              && d.consumed <= |data|
              && data[..d.consumed] == Encode(d.header, d.lofs, d.tofs, PaddingOf(data, d.header.ver0))
  {
    ParseMatchesOffsets(data, lofsIn, tofsIn);
    if Parse(data, lofsIn, tofsIn).Ok? {
      PrefixIsEncodingAtOffsets(data, lofsIn, tofsIn);
    }
  }
}
