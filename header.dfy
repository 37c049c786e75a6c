/**
 * The `Header` structure and its bytes. `Marshal.StructureToPtr` lays the
 * fields out in order with no padding (`Pack = 1`): `Marker` (32 bytes),
 * `Width` and `Height` (32-bit two's complement), `FileOriginalLenght`
 * (64-bit), `Name` (32 bytes) and `Hash` (16 bytes), integers little-endian.
 * The two markers are `Guid.ToByteArray` of the two GUIDs of `ImgTest`.
 */
module Headers {
  import opened Base
  import opened Layout

  /** The four bytes of a 32-bit field, least significant first. */
  function LittleEndian32(v: bv32): (s: seq<byte>)
    ensures |s| == 4
  {
    [(v & 0xFF) as byte, ((v >> 8) & 0xFF) as byte, ((v >> 16) & 0xFF) as byte, (v >> 24) as byte]
  }

  /** The 32-bit value of four little-endian bytes. */
  function FromLittleEndian32(s: seq<byte>): bv32
    requires |s| == 4
  {
    (s[0] as bv32) | ((s[1] as bv32) << 8) | ((s[2] as bv32) << 16) | ((s[3] as bv32) << 24)
  }

  /** A 32-bit field's bytes give the field back. */
  lemma LittleEndian32RoundTrip(v: bv32)
    ensures FromLittleEndian32(LittleEndian32(v)) == v
  {
  }

  /** Four bytes are the bytes of their value. */
  lemma FromLittleEndian32RoundTrip(s: seq<byte>)
    requires |s| == 4
    ensures LittleEndian32(FromLittleEndian32(s)) == s
  {
    var a, b, c, d := s[0], s[1], s[2], s[3];
    assert s == [a, b, c, d];
    assert LittleEndian32(FromLittleEndian32(s)) == [a, b, c, d];
  }

  /** The eight bytes of a 64-bit field, least significant first. */
  function LittleEndian64(v: bv64): (s: seq<byte>)
    ensures |s| == 8
  {
    [(v & 0xFF) as byte, ((v >> 8) & 0xFF) as byte, ((v >> 16) & 0xFF) as byte, ((v >> 24) & 0xFF) as byte,
     ((v >> 32) & 0xFF) as byte, ((v >> 40) & 0xFF) as byte, ((v >> 48) & 0xFF) as byte, (v >> 56) as byte]
  }

  /** The 64-bit value of eight little-endian bytes. */
  function FromLittleEndian64(s: seq<byte>): bv64
    requires |s| == 8
  {
    (s[0] as bv64) | ((s[1] as bv64) << 8) | ((s[2] as bv64) << 16) | ((s[3] as bv64) << 24)
    | ((s[4] as bv64) << 32) | ((s[5] as bv64) << 40) | ((s[6] as bv64) << 48) | ((s[7] as bv64) << 56)
  }

  /** A 64-bit field's bytes give the field back. */
  lemma LittleEndian64RoundTrip(v: bv64)
    ensures FromLittleEndian64(LittleEndian64(v)) == v
  {
  }

  /** Eight bytes are the bytes of their value. */
  lemma FromLittleEndian64RoundTrip(s: seq<byte>)
    requires |s| == 8
    ensures LittleEndian64(FromLittleEndian64(s)) == s
  {
    var a, b, c, d, e, f, g, h := s[0], s[1], s[2], s[3], s[4], s[5], s[6], s[7];
    assert s == [a, b, c, d, e, f, g, h];
    assert LittleEndian64(FromLittleEndian64(s)) == [a, b, c, d, e, f, g, h];
  }

  /** The two bytes of a 16-bit field, least significant first. */
  function LittleEndian16(v: bv16): (s: seq<byte>)
    ensures |s| == 2
  {
    [(v & 0xFF) as byte, (v >> 8) as byte]
  }

  /** The 16-bit value of two bytes written most significant first, as in a GUID's text. */
  function FromBigEndian16(s: seq<byte>): bv16
    requires |s| == 2
  {
    ((s[0] as bv16) << 8) | (s[1] as bv16)
  }

  /** The 32-bit value of four bytes written most significant first, as in a GUID's text. */
  function FromBigEndian32(s: seq<byte>): bv32
    requires |s| == 4
  {
    ((s[0] as bv32) << 24) | ((s[1] as bv32) << 16) | ((s[2] as bv32) << 8) | (s[3] as bv32)
  }

  /** `Guid.ToByteArray` of the GUID whose text spells the bytes `text` in order; see `GuidLayout`. */
  function GuidBytes(text: seq<byte>): (s: seq<byte>)
    requires |text| == 16
    ensures |s| == 16
  {
    [text[3], text[2], text[1], text[0], text[5], text[4], text[7], text[6]] + text[8..]
  }

  /**
   * A `Guid` holds a 32-bit field, two 16-bit fields and eight single
   * bytes. Its text writes the three fields most significant digit first;
   * `ToByteArray` stores them little-endian, then the eight bytes as written.
   */
  lemma GuidLayout(text: seq<byte>)
    requires |text| == 16
    ensures var s := GuidBytes(text);
      && s[..4] == LittleEndian32(FromBigEndian32(text[..4]))
      && s[4..6] == LittleEndian16(FromBigEndian16(text[4..6]))
      && s[6..8] == LittleEndian16(FromBigEndian16(text[6..8]))
      && s[8..] == text[8..]
  {
    BigToLittle32(text[..4]);
    BigToLittle16(text[4..6]);
    BigToLittle16(text[6..8]);
  }

  /** Applying the byte order twice gives the text back: the layout loses nothing. */
  lemma GuidBytesTwice(text: seq<byte>)
    requires |text| == 16
    ensures GuidBytes(GuidBytes(text)) == text
  {
  }

  /** Reading four bytes most significant first and writing them least significant first reverses them. */
  lemma BigToLittle32(s: seq<byte>)
    requires |s| == 4
    ensures LittleEndian32(FromBigEndian32(s)) == [s[3], s[2], s[1], s[0]]
  {
  }

  /** The same for two bytes: they swap. */
  lemma BigToLittle16(s: seq<byte>)
    requires |s| == 2
    ensures LittleEndian16(FromBigEndian16(s)) == [s[1], s[0]]
  {
  }

  /** `Marker1`, `0c3cd8ec-eb14-4dc4-aab2-4ddd40ae0c5e`. */
  function Marker1(): seq<byte> {
    GuidBytes([0x0c, 0x3c, 0xd8, 0xec, 0xeb, 0x14, 0x4d, 0xc4, 0xaa, 0xb2, 0x4d, 0xdd, 0x40, 0xae, 0x0c, 0x5e])
  }

  /** `Marker2`, `922b0bc5-6733-45c4-b3f4-bfd9832e98d3`. */
  function Marker2(): seq<byte> {
    GuidBytes([0x92, 0x2b, 0x0b, 0xc5, 0x67, 0x33, 0x45, 0xc4, 0xb3, 0xf4, 0xbf, 0xd9, 0x83, 0x2e, 0x98, 0xd3])
  }

  /** The header's `Marker`: the bytes of the two GUIDs, one after the other. */
  function Marker(): (m: seq<byte>)
    ensures |m| == 32
  {
    Marker1() + Marker2()
  }

  /** The 32 marker bytes, as they appear at the start of every header. */
  lemma MarkerBytes()
    ensures Marker() == [
      0xec, 0xd8, 0x3c, 0x0c, 0x14, 0xeb, 0xc4, 0x4d, 0xaa, 0xb2, 0x4d, 0xdd, 0x40, 0xae, 0x0c, 0x5e,
      0xc5, 0x0b, 0x2b, 0x92, 0x33, 0x67, 0xc4, 0x45, 0xb3, 0xf4, 0xbf, 0xd9, 0x83, 0x2e, 0x98, 0xd3]
  {
    Marker1Bytes();
    Marker2Bytes();
  }

  lemma Marker1Bytes()
    ensures Marker1() == [0xec, 0xd8, 0x3c, 0x0c, 0x14, 0xeb, 0xc4, 0x4d, 0xaa, 0xb2, 0x4d, 0xdd, 0x40, 0xae, 0x0c, 0x5e]
  {
  }

  lemma Marker2Bytes()
    ensures Marker2() == [0xc5, 0x0b, 0x2b, 0x92, 0x33, 0x67, 0xc4, 0x45, 0xb3, 0xf4, 0xbf, 0xd9, 0x83, 0x2e, 0x98, 0xd3]
  {
  }

  /**
   * A header. `Width`, `Height` and `FileOriginalLenght` are the bits of
   * the C# `int` and `long` fields; the encoder only stores non-negative
   * values, whose two's complement is their binary form.
   */
  datatype Header = Header(marker: seq<byte>, width: bv32, height: bv32, originalLength: bv64, name: seq<byte>, hash: seq<byte>)
  {
    /** The arrays have their `SizeConst` lengths. */
    predicate WellFormed() {
      |marker| == 32 && |name| == 32 && |hash| == 16
    }
  }

  /** The bytes `Marshal.StructureToPtr` writes for a header, `HeaderSize` of them. */
  function HeaderBytes(h: Header): (b: seq<byte>)
    requires h.WellFormed()
    ensures |b| == HeaderSize
    ensures b[..32] == h.marker && b[48..80] == h.name && b[80..] == h.hash
  {
    var b := h.marker + LittleEndian32(h.width) + LittleEndian32(h.height) + LittleEndian64(h.originalLength) + h.name + h.hash;
    assert b[..32] == h.marker && b[48..80] == h.name && b[80..] == h.hash;
    b
  }

  /** A header read back from its `HeaderSize` bytes. */
  function ParseHeader(b: seq<byte>): (h: Header)
    requires |b| == HeaderSize
    ensures h.WellFormed()
  {
    Header(b[..32], FromLittleEndian32(b[32..36]), FromLittleEndian32(b[36..40]), FromLittleEndian64(b[40..48]), b[48..80], b[80..])
  }

  /** Reading the bytes of a header gives the header back. */
  lemma HeaderRoundTrip(h: Header)
    requires h.WellFormed()
    ensures ParseHeader(HeaderBytes(h)) == h
  {
    var b := HeaderBytes(h);
    var w, t, l := LittleEndian32(h.width), LittleEndian32(h.height), LittleEndian64(h.originalLength);
    assert b == h.marker + w + t + l + h.name + h.hash;
    assert b[32..36] == w by {
      assert forall i :: 0 <= i < 4 ==> b[32..36][i] == b[32 + i] == w[i];
    }
    assert b[36..40] == t by {
      assert forall i :: 0 <= i < 4 ==> b[36..40][i] == b[36 + i] == t[i];
    }
    assert b[40..48] == l by {
      assert forall i :: 0 <= i < 8 ==> b[40..48][i] == b[40 + i] == l[i];
    }
    LittleEndian32RoundTrip(h.width);
    LittleEndian32RoundTrip(h.height);
    LittleEndian64RoundTrip(h.originalLength);
  }

  /** Every `HeaderSize` bytes are the bytes of the header read from them. */
  lemma HeaderBytesOfParse(b: seq<byte>)
    requires |b| == HeaderSize
    ensures HeaderBytes(ParseHeader(b)) == b
  {
    FromLittleEndian32RoundTrip(b[32..36]);
    FromLittleEndian32RoundTrip(b[36..40]);
    FromLittleEndian64RoundTrip(b[40..48]);
    assert b[..36] == b[..32] + b[32..36];
    assert b[..40] == b[..36] + b[36..40];
    assert b[..48] == b[..40] + b[40..48];
    assert b[..80] == b[..48] + b[48..80];
    assert b == b[..80] + b[80..];
  }
}
