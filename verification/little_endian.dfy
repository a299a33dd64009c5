/** Unsigned machine integers and the little-endian uint32 layout that every
    multi-byte field of an SFF header uses. */
module LittleEndian {

  newtype uint8 = x: int | 0 <= x < 0x100
  newtype uint32 = x: int | 0 <= x < 0x1_0000_0000

  /** The uint32 stored little-endian in the four bytes s[off..off+4]. */
  function LE32(s: seq<uint8>, off: nat): uint32
    requires off + 4 <= |s|
  {
    (s[off] as int
     + 0x100 * s[off + 1] as int
     + 0x1_0000 * s[off + 2] as int
     + 0x100_0000 * s[off + 3] as int) as uint32
  }

  /** The four bytes of x, least significant first. */
  function EncodeLE32(x: uint32): (r: seq<uint8>)
    ensures |r| == 4
    ensures LE32(r, 0) == x
  {
    var n := x as int;
    var b0 := n % 0x100;
    var b1 := (n / 0x100) % 0x100;
    var b2 := (n / 0x1_0000) % 0x100;
    var b3 := n / 0x100_0000;
    assert n == b0 + 0x100 * b1 + 0x1_0000 * b2 + 0x100_0000 * b3 by {
      assert n / 0x100 / 0x100 == n / 0x1_0000;
      assert n / 0x1_0000 / 0x100 == n / 0x100_0000;
    }
    [b0 as uint8, b1 as uint8, b2 as uint8, b3 as uint8]
  }

  /** Encoding the value read from four bytes gives those four bytes back:
      the little-endian layout loses nothing. */
  lemma EncodeOfLE32(s: seq<uint8>, off: nat)
    requires off + 4 <= |s|
    ensures EncodeLE32(LE32(s, off)) == s[off..off + 4]
  {
    var b0, b1, b2, b3 := s[off] as int, s[off + 1] as int, s[off + 2] as int, s[off + 3] as int;
    var n := LE32(s, off) as int;
    var h2 := b2 + 0x100 * b3;
    var h1 := b1 + 0x100 * h2;
    assert n == b0 + 0x100 * h1;
    assert n / 0x1_0000 == h2 by {
      assert n / 0x1_0000 == n / 0x100 / 0x100;
    }
    assert n / 0x100_0000 == b3 by {
      assert n / 0x100_0000 == n / 0x1_0000 / 0x100;
    }
    var e := EncodeLE32(LE32(s, off));
    assert e[0] == s[off] && e[1] == s[off + 1] && e[2] == s[off + 2] && e[3] == s[off + 3];
  }

  /** LE32 only looks at its four bytes: any two sequences that agree there
      read the same value. */
  lemma LE32Local(s: seq<uint8>, off: nat, t: seq<uint8>, off': nat)
    requires off + 4 <= |s| && off' + 4 <= |t|
    requires s[off..off + 4] == t[off'..off' + 4]
    ensures LE32(s, off) == LE32(t, off')
  {
    assert s[off] == s[off..off + 4][0] == t[off'..off' + 4][0] == t[off'];
    assert s[off + 1] == s[off..off + 4][1] == t[off'..off' + 4][1] == t[off' + 1];
    assert s[off + 2] == s[off..off + 4][2] == t[off'..off' + 4][2] == t[off' + 2];
    assert s[off + 3] == s[off..off + 4][3] == t[off'..off' + 4][3] == t[off' + 3];
  }

  /** Distinct four-byte windows hold distinct values. */
  lemma LE32Injective(s: seq<uint8>, off: nat, t: seq<uint8>, off': nat)
    requires off + 4 <= |s| && off' + 4 <= |t|
    requires LE32(s, off) == LE32(t, off')
    ensures s[off..off + 4] == t[off'..off' + 4]
  {
    EncodeOfLE32(s, off);
    EncodeOfLE32(t, off');
  }
}
