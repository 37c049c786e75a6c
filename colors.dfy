/**
 * `ColorsFromBytes` and `Norm`: every six-bit unit becomes one colour whose
 * red, green and blue channels carry its bits 5:4, 3:2 and 1:0, each 2-bit
 * field spread over 0, 85, 170 or 255.
 */
module Colors {
  import opened Base
  import opened SixBits

  /** A colour of the bitmap. */
  datatype Rgb = Rgb(r: int, g: int, b: int)

  /** The two-bit field of `u` at bit `k`. */
  function Field(u: byte, k: bv8): int
    requires k < 8
  {
    ((u >> k) & 0x03) as int
  }

  /**
   * `Norm`: a 2-bit field held in bits 7:6 of `val` is spread evenly over
   * 0..255; any other value is passed through.
   */
  function Norm(val: int): (r: int)
    ensures 0 <= val < 256 && val % 64 == 0 ==> r == 85 * (val / 64)
    ensures val != 64 && val != 128 && val != 192 ==> r == val
  {
    if val == 0x40 then 85
    else if val == 0x80 then 170
    else if val == 0xC0 then 255
    else val
  }

  /** The colour `ColorsFromBytes` yields for the byte `u`. */
  function ColorOf(u: byte): (c: Rgb)
    ensures c.r == 85 * Field(u, 4) && c.g == 85 * Field(u, 2) && c.b == 85 * Field(u, 0)
  {
    var r := ((u & 0x30) << 2) as int;
    var g := ((u & 0x0C) << 4) as int;
    var bb := ((u & 0x03) << 6) as int;
    FieldShifted(u);
    Rgb(Norm(r), Norm(g), Norm(bb))
  }

  lemma FieldShifted(u: byte)
    ensures ((u & 0x30) << 2) as int == 64 * Field(u, 4)
    ensures ((u & 0x0C) << 4) as int == 64 * Field(u, 2)
    ensures ((u & 0x03) << 6) as int == 64 * Field(u, 0)
  {
    FieldShiftedAt(u, 4, 0x30, 2);
    FieldShiftedAt(u, 2, 0x0C, 4);
    FieldShiftedAt(u, 0, 0x03, 6);
  }

  lemma FieldShiftedAt(u: byte, k: bv8, mask: byte, s: bv8)
    requires (k, mask, s) == (4, 0x30, 2) || (k, mask, s) == (2, 0x0C, 4) || (k, mask, s) == (0, 0x03, 6)
    ensures ((u & mask) << s) as int == 64 * Field(u, k)
  {
    var f := (u >> k) & 0x03;
    assert (u & mask) << s == f << 6;
    assert f == 0 || f == 1 || f == 2 || f == 3;
  }

  /** `ColorsFromBytes`: one colour per byte, in order. */
  function ColorsFromBytes(bytes: seq<byte>): (cs: seq<Rgb>)
    ensures |cs| == |bytes|
    ensures forall i :: 0 <= i < |bytes| ==> cs[i] == ColorOf(bytes[i])
  {
    if bytes == [] then [] else [ColorOf(bytes[0])] + ColorsFromBytes(bytes[1..])
  }

  // ---------------------------------------------------------------------------
  // Reading a colour back
  // ---------------------------------------------------------------------------

  /** The channel value `85 * f` read back as the field `f`. */
  function Level(channel: int): byte {
    if channel == 255 then 3 else if channel == 170 then 2 else if channel == 85 then 1 else 0
  }

  /** The unit a colour of the bitmap stands for. */
  function UnitOf(c: Rgb): byte {
    (Level(c.r) << 4) | (Level(c.g) << 2) | Level(c.b)
  }

  lemma LevelOf(f: int)
    requires 0 <= f < 4
    ensures Level(85 * f) as int == f
  {
  }

  /**
   * Every channel is 0, 85, 170 or 255, bits 7:6 of the byte play no part,
   * and the unit is recovered from the colour.
   */
  lemma {:induction false} ColorRoundTrip(u: byte)
    ensures var c := ColorOf(u);
      && c.r in {0, 85, 170, 255} && c.g in {0, 85, 170, 255} && c.b in {0, 85, 170, 255}
      && c == ColorOf(u & 0x3F)
      && UnitOf(c) == u & 0x3F
  {
    var c := ColorOf(u);
    var r, g, b := (u >> 4) & 0x03, (u >> 2) & 0x03, u & 0x03;
    LevelOf(Field(u, 4));
    LevelOf(Field(u, 2));
    LevelOf(Field(u, 0));
    assert Level(c.r) == r && Level(c.g) == g && Level(c.b) == b;
    assert (r << 4) | (g << 2) | b == u & 0x3F;
    assert Field(u & 0x3F, 4) == Field(u, 4) && Field(u & 0x3F, 2) == Field(u, 2) && Field(u & 0x3F, 0) == Field(u, 0);
  }

  /** Distinct units get distinct colours. */
  lemma ColorsDistinct(u: byte, v: byte)
    requires u <= 63 && v <= 63 && u != v
    ensures ColorOf(u) != ColorOf(v)
  {
    ColorRoundTrip(u);
    ColorRoundTrip(v);
    assert u & 0x3F == u && v & 0x3F == v;
  }

  /** The units a run of colours stands for. */
  function UnitsOf(cs: seq<Rgb>): (u: seq<byte>)
    ensures |u| == |cs|
  {
    if cs == [] then [] else [UnitOf(cs[0])] + UnitsOf(cs[1..])
  }

  /** The colours of a run of units give the units back. */
  lemma {:induction false} ColorsRoundTrip(u: seq<byte>)
    requires AllUnits(u)
    ensures UnitsOf(ColorsFromBytes(u)) == u
  {
    if u != [] {
      var cs := ColorsFromBytes(u);
      assert u[0] <= 63;
      UnitBack(u[0]);
      assert cs[1..] == ColorsFromBytes(u[1..]);
      assert AllUnits(u[1..]);
      ColorsRoundTrip(u[1..]);
      assert u == [u[0]] + u[1..];
    }
  }

  /** A unit is read back from its colour. */
  lemma UnitBack(x: byte)
    requires x <= 63
    ensures UnitOf(ColorOf(x)) == x
  {
    ColorRoundTrip(x);
    assert x & 0x3F == x;
  }
}
