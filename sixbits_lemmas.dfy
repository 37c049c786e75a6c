/** Properties of the six-bit codec: sizes, bit order, round trip and truncation. */
module SixBitsLemmas {
  import opened Base
  import opened SixBits

  lemma {:induction false} UnitBitsAppend(a: seq<byte>, b: seq<byte>)
    ensures UnitBits(a + b) == UnitBits(a) + UnitBits(b)
  {
    if a == [] {
      assert a + b == b;
    } else {
      assert (a + b)[1..] == a[1..] + b;
      UnitBitsAppend(a[1..], b);
    }
  }

  // Bit strings of the two halves a pack step writes, one lemma per carry
  // state; each is split in a bit-vector part and a sequence part, which the
  // solver handles well separately but not together.

  lemma NoBitsSmall()
    ensures NoBits(2) == [false, false] && NoBits(4) == [false, false, false, false]
  {
  }

  lemma BitsOfByte(c: byte)
    ensures Bits8(c) == [c & 0x80 != 0, c & 0x40 != 0, c & 0x20 != 0, c & 0x10 != 0,
                         c & 0x08 != 0, c & 0x04 != 0, c & 0x02 != 0, c & 0x01 != 0]
  {
  }

  lemma BitsWhenFreeZero(c: byte)
    ensures Bits6(c >> 2) == Bits8(c)[..6]
    ensures Bits6((c & 0x03) << 4) == [c & 0x02 != 0, c & 0x01 != 0, false, false, false, false]
  {
  }

  lemma BitsWhenFreeFour(last: byte, c: byte)
    requires last & 0x0F == 0
    ensures Bits6(last | (c >> 4)) ==
      [last & 0x20 != 0, last & 0x10 != 0, c & 0x80 != 0, c & 0x40 != 0, c & 0x20 != 0, c & 0x10 != 0]
    ensures Bits6((c & 0x0F) << 2) == [c & 0x08 != 0, c & 0x04 != 0, c & 0x02 != 0, c & 0x01 != 0, false, false]
  {
    var x := last | (c >> 4);
    assert x & 0x20 != 0 <==> last & 0x20 != 0;
    assert x & 0x10 != 0 <==> last & 0x10 != 0;
    assert x & 0x08 != 0 <==> c & 0x80 != 0;
    assert x & 0x04 != 0 <==> c & 0x40 != 0;
    assert x & 0x02 != 0 <==> c & 0x20 != 0;
    assert x & 0x01 != 0 <==> c & 0x10 != 0;
  }

  lemma BitsWhenFreeTwo(last: byte, c: byte)
    requires last & 0x03 == 0
    ensures Bits6(last | (c >> 6)) ==
      [last & 0x20 != 0, last & 0x10 != 0, last & 0x08 != 0, last & 0x04 != 0, c & 0x80 != 0, c & 0x40 != 0]
    ensures Bits6(c & 0x3F) == Bits8(c)[2..]
  {
    var x := last | (c >> 6);
    assert x & 0x20 != 0 <==> last & 0x20 != 0;
    assert x & 0x10 != 0 <==> last & 0x10 != 0;
    assert x & 0x08 != 0 <==> last & 0x08 != 0;
    assert x & 0x04 != 0 <==> last & 0x04 != 0;
    assert x & 0x02 != 0 <==> c & 0x80 != 0;
    assert x & 0x01 != 0 <==> c & 0x40 != 0;
  }

  lemma Take2(a: seq<bool>)
    requires |a| == 6
    ensures a[..2] == [a[0], a[1]]
  {
  }

  lemma Take4(a: seq<bool>)
    requires |a| == 6
    ensures a[..4] == [a[0], a[1], a[2], a[3]]
  {
  }

  lemma Join12(x0: bool, x1: bool, x2: bool, x3: bool, x4: bool, x5: bool,
               y0: bool, y1: bool, y2: bool, y3: bool, y4: bool, y5: bool)
    ensures [x0, x1, x2, x3, x4, x5] + [y0, y1, y2, y3, y4, y5]
         == [x0, x1, x2, x3, x4, x5, y0, y1, y2, y3, y4, y5]
  {
  }

  lemma SplitFour(c: seq<bool>)
    requires |c| == 8
    ensures c[..6] + [c[6], c[7], false, false, false, false] == c + [false, false, false, false]
  {
  }

  lemma SplitTwoAfterTwo(a0: bool, a1: bool, c: seq<bool>)
    requires |c| == 8
    ensures [a0, a1] + c + [false, false]
         == [a0, a1, c[0], c[1], c[2], c[3], c[4], c[5], c[6], c[7], false, false]
  {
  }

  lemma SplitFourAfterTwo(a0: bool, a1: bool, a2: bool, a3: bool, c: seq<bool>)
    requires |c| == 8
    ensures [a0, a1, a2, a3] + c == [a0, a1, a2, a3, c[0], c[1]] + c[2..]
  {
  }

  /** The two units written in carry state 0 hold the byte's bits followed by four free bits. */
  lemma BitsFreeZero(c: byte)
    ensures Bits6(c >> 2) + Bits6((c & 0x03) << 4) == Bits8(c) + NoBits(4)
  {
    BitsWhenFreeZero(c);
    BitsOfByte(c);
    NoBitsSmall();
    SplitFour(Bits8(c));
  }

  /** In carry state 4 the rewritten unit keeps its two top bits and the new unit has two free bits. */
  lemma BitsFreeFour(last: byte, c: byte)
    requires last & 0x0F == 0
    ensures Bits6(last | (c >> 4)) + Bits6((c & 0x0F) << 2) == Bits6(last)[..2] + Bits8(c) + NoBits(2)
  {
    BitsWhenFreeFour(last, c);
    BitsOfByte(c);
    NoBitsSmall();
    Take2(Bits6(last));
    var b := Bits8(c);
    SplitTwoAfterTwo(last & 0x20 != 0, last & 0x10 != 0, b);
    Join12(last & 0x20 != 0, last & 0x10 != 0, b[0], b[1], b[2], b[3], b[4], b[5], b[6], b[7], false, false);
  }

  /** In carry state 2 the rewritten unit keeps its four top bits and the new unit is complete. */
  lemma BitsFreeTwo(last: byte, c: byte)
    requires last & 0x03 == 0
    ensures Bits6(last | (c >> 6)) + Bits6(c & 0x3F) == Bits6(last)[..4] + Bits8(c)
  {
    BitsWhenFreeTwo(last, c);
    BitsOfByte(c);
    Take4(Bits6(last));
    var b := Bits8(c);
    SplitFourAfterTwo(last & 0x20 != 0, last & 0x10 != 0, last & 0x08 != 0, last & 0x04 != 0, b);
  }

  lemma UnitBitsPair(x: byte, y: byte)
    ensures UnitBits([x]) == Bits6(x)
    ensures UnitBits([x, y]) == Bits6(x) + Bits6(y)
  {
    assert [x, y][1..] == [y];
    assert UnitBits([y]) == Bits6(y) + UnitBits([]);
  }

  lemma TakeAppend(a: seq<bool>, b: seq<bool>, k: nat)
    requires k <= |b|
    ensures (a + b)[..|a| + k] == a + b[..k]
  {
  }

  /** Splits the units of a pack state with pending free bits into the finished ones and the last. */
  lemma CommittedSplit(p: Packer)
    requires p.Valid() && p.freeBits != 0
    ensures p.units == p.units[..|p.units| - 1] + [p.units[|p.units| - 1]]
    ensures Committed(p) == UnitBits(p.units[..|p.units| - 1]) + Bits6(p.units[|p.units| - 1])[..6 - p.freeBits]
  {
    var n := |p.units|;
    var init, last := p.units[..n - 1], p.units[n - 1];
    assert p.units == init + [last];
    UnitBitsAppend(init, [last]);
    UnitBitsPair(last, last);
    TakeAppend(UnitBits(init), Bits6(last), 6 - p.freeBits);
  }

  lemma PackBitsZero(p: Packer, c: byte)
    requires p.Valid() && p.freeBits == 0
    ensures UnitBits(PackByte(p, c).units) == Committed(p) + Bits8(c) + NoBits(4)
  {
    var x, y := c >> 2, (c & 0x03) << 4;
    assert PackByte(p, c).units == p.units + [x, y];
    UnitBitsAppend(p.units, [x, y]);
    UnitBitsPair(x, y);
    BitsFreeZero(c);
    assert Committed(p) == UnitBits(p.units);
  }

  lemma PackBitsFour(p: Packer, c: byte)
    requires p.Valid() && p.freeBits == 4
    ensures UnitBits(PackByte(p, c).units) == Committed(p) + Bits8(c) + NoBits(2)
  {
    var n := |p.units|;
    var init, last := p.units[..n - 1], p.units[n - 1];
    CommittedSplit(p);
    assert PackByte(p, c).units == init + [last | (c >> 4), (c & 0x0F) << 2];
    FourTail(init, last, c);
  }

  lemma FourTail(init: seq<byte>, last: byte, c: byte)
    requires last & 0x0F == 0
    ensures UnitBits(init + [last | (c >> 4), (c & 0x0F) << 2]) == UnitBits(init) + Bits6(last)[..2] + Bits8(c) + NoBits(2)
  {
    var x, y := last | (c >> 4), (c & 0x0F) << 2;
    UnitBitsAppend(init, [x, y]);
    UnitBitsPair(x, y);
    BitsFreeFour(last, c);
  }

  lemma PackBitsTwo(p: Packer, c: byte)
    requires p.Valid() && p.freeBits == 2
    ensures UnitBits(PackByte(p, c).units) == Committed(p) + Bits8(c)
  {
    var n := |p.units|;
    var init, last := p.units[..n - 1], p.units[n - 1];
    CommittedSplit(p);
    assert PackByte(p, c).units == init + [last | (c >> 6), c & 0x3F];
    TwoTail(init, last, c);
  }

  lemma TwoTail(init: seq<byte>, last: byte, c: byte)
    requires last & 0x03 == 0
    ensures UnitBits(init + [last | (c >> 6), c & 0x3F]) == UnitBits(init) + Bits6(last)[..4] + Bits8(c)
  {
    var x, y := last | (c >> 6), c & 0x3F;
    UnitBitsAppend(init, [x, y]);
    UnitBitsPair(x, y);
    BitsFreeTwo(last, c);
  }

  /** One pack step commits exactly the eight bits of the byte and leaves the new free bits zero. */
  lemma PackByteBits(p: Packer, c: byte)
    requires p.Valid()
    ensures UnitBits(PackByte(p, c).units) == Committed(p) + Bits8(c) + NoBits(PackByte(p, c).freeBits)
  {
    if p.freeBits == 0 {
      PackBitsZero(p, c);
    } else if p.freeBits == 4 {
      PackBitsFour(p, c);
    } else {
      PackBitsTwo(p, c);
      assert NoBits(0) == [];
    }
  }

  /** The free tail of the last unit is zero, so the units are the committed bits plus free zeros. */
  lemma CommittedThenFree(p: Packer)
    requires p.Valid()
    ensures UnitBits(p.units) == Committed(p) + NoBits(p.freeBits)
  {
    if p.freeBits != 0 {
      var n := |p.units|;
      var init, last := p.units[..n - 1], p.units[n - 1];
      CommittedSplit(p);
      UnitBitsAppend(init, [last]);
      UnitBitsPair(last, last);
      NoBitsSmall();
      assert Bits6(last) == Bits6(last)[..6 - p.freeBits] + NoBits(p.freeBits);
    }
  }

  lemma CommittedAfterByte(p: Packer, c: byte)
    requires p.Valid()
    ensures Committed(PackByte(p, c)) == Committed(p) + Bits8(c)
  {
    var q := PackByte(p, c);
    PackByteBits(p, c);
    var pre := Committed(p) + Bits8(c);
    assert |pre| == 6 * |q.units| - q.freeBits;
    assert UnitBits(q.units)[..|pre|] == pre;
  }

  /**
   * Packing spells the input bits in order: the units of any reachable pack
   * state, read six bits each, are the bits committed before, then the eight
   * bits of every byte written, then as many zero bits as are still free.
   */
  lemma {:induction false} PackRunBits(p: Packer, s: seq<byte>)
    requires p.Valid()
    ensures UnitBits(PackRun(p, s).units) == Committed(p) + ByteBits(s) + NoBits(PackRun(p, s).freeBits)
    decreases |s|
  {
    if s == [] {
      CommittedThenFree(p);
    } else {
      var q := PackByte(p, s[0]);
      assert PackRun(p, s) == PackRun(q, s[1..]);
      PackRunBits(q, s[1..]);
      CommittedAfterByte(p, s[0]);
      assert ByteBits(s) == Bits8(s[0]) + ByteBits(s[1..]);
      AppendAssoc(Committed(p), Bits8(s[0]), ByteBits(s[1..]));
    }
  }

  /**
   * Only the last unit emitted so far may be rewritten: every earlier unit
   * survives any further writes, and the output never shrinks.
   */
  lemma {:induction false} PackRunKeepsPrefix(p: Packer, s: seq<byte>)
    requires p.Valid()
    ensures |PackRun(p, s).units| >= |p.units|
    ensures var m := if p.freeBits == 0 then |p.units| else |p.units| - 1;
      PackRun(p, s).units[..m] == p.units[..m]
    decreases |s|
  {
    if s != [] {
      var q := PackByte(p, s[0]);
      PackRunKeepsPrefix(q, s[1..]);
      var m := if p.freeBits == 0 then |p.units| else |p.units| - 1;
      var m' := if q.freeBits == 0 then |q.units| else |q.units| - 1;
      assert m <= m';
      assert PackRun(p, s).units[..m] == PackRun(p, s).units[..m'][..m];
      assert q.units[..m] == p.units[..m];
    }
  }

  /** Packing `a + b` is packing `a`, then packing `b` from where `a` left the carry. */
  lemma {:induction false} PackRunAppend(p: Packer, a: seq<byte>, b: seq<byte>)
    requires p.Valid()
    ensures PackRun(p, a + b) == PackRun(PackRun(p, a), b)
    decreases |a|
  {
    if a == [] {
      assert a + b == b;
    } else {
      assert (a + b)[0] == a[0] && (a + b)[1..] == a[1..] + b;
      PackRunAppend(PackByte(p, a[0]), a[1..], b);
    }
  }

  lemma PackByteAfter(pre: seq<byte>, p: Packer, c: byte)
    requires p.Valid()
    ensures Packer(pre + p.units, p.freeBits).Valid()
    ensures PackByte(Packer(pre + p.units, p.freeBits), c)
         == Packer(pre + PackByte(p, c).units, PackByte(p, c).freeBits)
  {
    if p.freeBits == 0 {
      StepFromZero(p.units, c);
      StepFromZero(pre + p.units, c);
      AppendAssoc(pre, p.units, [c >> 2, (c & 0x03) << 4]);
    } else {
      var n := |p.units|;
      var init, last := p.units[..n - 1], p.units[n - 1];
      assert p.units == init + [last];
      AppendAssoc(pre, init, [last]);
      var tail := if p.freeBits == 4 then [last | (c >> 4), (c & 0x0F) << 2] else [last | (c >> 6), c & 0x3F];
      StepFromLast(init, last, p.freeBits, c);
      StepFromLast(pre + init, last, p.freeBits, c);
      AppendAssoc(pre, init, tail);
    }
  }

  lemma AppendAssoc<T>(a: seq<T>, b: seq<T>, c: seq<T>)
    ensures a + (b + c) == a + b + c
  {
  }

  /** One pack step from a stream whose last unit `last` has free bits. */
  lemma StepFromLast(init: seq<byte>, last: byte, free: int, c: byte)
    requires (free == 4 || free == 2) && LowClear(last, free)
    ensures PackByte(Packer(init + [last], free), c)
         == if free == 4 then Packer(init + [last | (c >> 4), (c & 0x0F) << 2], 2)
            else Packer(init + [last | (c >> 6), c & 0x3F], 0)
  {
    var u := init + [last];
    assert u[..|u| - 1] == init && u[|u| - 1] == last;
  }

  /** A prefix already in the outer stream does not change what packing appends. */
  lemma {:induction false} PackRunAfter(pre: seq<byte>, p: Packer, s: seq<byte>)
    requires p.Valid()
    ensures Packer(pre + p.units, p.freeBits).Valid()
    ensures PackRun(Packer(pre + p.units, p.freeBits), s)
         == Packer(pre + PackRun(p, s).units, PackRun(p, s).freeBits)
    decreases |s|
  {
    PackByteAfter(pre, p, if s == [] then 0 else s[0]);
    if s != [] {
      PackRunAfter(pre, PackByte(p, s[0]), s[1..]);
    }
  }

  lemma StepFromZero(u: seq<byte>, a: byte)
    ensures PackByte(Packer(u, 0), a) == Packer(u + [a >> 2, (a & 0x03) << 4], 4)
  {
  }

  lemma StepFromFour(u: seq<byte>, x: byte, y: byte, b: byte)
    requires y & 0x0F == 0
    ensures PackByte(Packer(u + [x, y], 4), b) == Packer(u + [x, y | (b >> 4), (b & 0x0F) << 2], 2)
  {
    assert (u + [x, y])[..|u| + 1] == u + [x];
  }

  lemma StepFromTwo(u: seq<byte>, x: byte, y: byte, z: byte, c: byte)
    requires z & 0x03 == 0
    ensures PackByte(Packer(u + [x, y, z], 2), c) == Packer(u + [x, y, z | (c >> 6), c & 0x3F], 0)
  {
    assert (u + [x, y, z])[..|u| + 2] == u + [x, y];
  }

  lemma ThreeSteps(u: seq<byte>, a: byte, b: byte, c: byte)
    ensures PackByte(PackByte(PackByte(Packer(u, 0), a), b), c) == Packer(u + Group(a, b, c), 0)
  {
    var x, y := a >> 2, (a & 0x03) << 4;
    StepFromZero(u, a);
    StepFromFour(u, x, y, b);
    var y', z := y | (b >> 4), (b & 0x0F) << 2;
    StepFromTwo(u, x, y', z, c);
  }

  /** Three bytes written from carry 0 append exactly one four-unit group and return to carry 0. */
  lemma PackThree(p: Packer, s: seq<byte>)
    requires p.Valid() && p.freeBits == 0 && |s| >= 3
    ensures PackRun(p, s) == PackRun(Packer(p.units + Group(s[0], s[1], s[2]), 0), s[3..])
  {
    var p1 := PackByte(p, s[0]);
    var p2 := PackByte(p1, s[1]);
    var p3 := PackByte(p2, s[2]);
    assert s[1..][0] == s[1] && s[1..][1..] == s[2..];
    assert s[2..][0] == s[2] && s[2..][1..] == s[3..];
    assert PackRun(p, s) == PackRun(p1, s[1..]);
    assert PackRun(p1, s[1..]) == PackRun(p2, s[2..]);
    assert PackRun(p2, s[2..]) == PackRun(p3, s[3..]);
    ThreeSteps(p.units, s[0], s[1], s[2]);
  }

  /** A fresh stream packs each leading three-byte group independently of the rest. */
  lemma PackSplit(s: seq<byte>)
    requires |s| >= 3
    ensures Pack(s) == Group(s[0], s[1], s[2]) + Pack(s[3..])
    ensures PackRun(Fresh, s).freeBits == PackRun(Fresh, s[3..]).freeBits
  {
    PackThree(Fresh, s);
    assert Fresh.units + Group(s[0], s[1], s[2]) == Group(s[0], s[1], s[2]) + Fresh.units;
    PackRunAfter(Group(s[0], s[1], s[2]), Fresh, s[3..]);
  }

  lemma Third(n: nat)
    ensures n + 3 + (n + 3 + 2) / 3 == 4 + n + (n + 2) / 3
    ensures CarryAfter(n + 3) == CarryAfter(n)
  {
  }

  lemma EmptyAppend<T>(x: seq<T>)
    ensures [] + x == x
  {
  }

  lemma AllUnitsAppend(a: seq<byte>, b: seq<byte>)
    requires AllUnits(a) && AllUnits(b)
    ensures AllUnits(a + b)
  {
  }

  /** What a fresh stream holds after one byte. */
  lemma PackOneByte(a: byte)
    ensures PackRun(Fresh, [a]) == Packer([a >> 2, (a & 0x03) << 4], 4)
  {
    StepFromZero([], a);
    EmptyAppend([a >> 2, (a & 0x03) << 4]);
    assert [a][1..] == [];
  }

  /** What a fresh stream holds after two bytes. */
  lemma PackTwoBytes(a: byte, b: byte)
    ensures PackRun(Fresh, [a, b]) == Packer([a >> 2, ((a & 0x03) << 4) | (b >> 4), (b & 0x0F) << 2], 2)
  {
    var x, y := a >> 2, (a & 0x03) << 4;
    StepFromZero([], a);
    EmptyAppend([x, y]);
    assert [a, b][1..] == [b];
    assert PackRun(Fresh, [a, b]) == PackRun(Packer([x, y], 4), [b]);
    StepFromFour([], x, y, b);
    EmptyAppend([x, y | (b >> 4), (b & 0x0F) << 2]);
    assert [b][1..] == [];
    assert PackRun(Packer([x, y], 4), [b]) == PackRun(PackByte(Packer([x, y], 4), b), []);
  }

  /** PackShape for fewer than three bytes. */
  lemma PackShortShape(s: seq<byte>)
    requires |s| < 3
    ensures |Pack(s)| == |s| + (|s| + 2) / 3
    ensures PackRun(Fresh, s).freeBits == CarryAfter(|s|)
    ensures AllUnits(Pack(s))
  {
    if |s| == 1 {
      assert s == [s[0]];
      PackOneByte(s[0]);
      UnitsOfOne(s[0]);
    } else if |s| == 2 {
      assert s == [s[0], s[1]];
      PackTwoBytes(s[0], s[1]);
      UnitsOfTwo(s[0], s[1]);
    }
  }

  lemma UnitsOfOne(a: byte)
    ensures AllUnits([a >> 2, (a & 0x03) << 4])
  {
    assert a >> 2 <= 63 && (a & 0x03) << 4 <= 63;
  }

  lemma UnitsOfTwo(a: byte, b: byte)
    ensures AllUnits([a >> 2, ((a & 0x03) << 4) | (b >> 4), (b & 0x0F) << 2])
  {
    assert a >> 2 <= 63 && ((a & 0x03) << 4) | (b >> 4) <= 63 && (b & 0x0F) << 2 <= 63;
  }

  /**
   * From a fresh stream, n bytes become n + ceil(n/3) units, each at most 63,
   * and the carry ends at 0, 4 or 2 for n mod 3 = 0, 1 or 2.
   */
  lemma {:induction false} PackShape(s: seq<byte>)
    ensures |Pack(s)| == |s| + (|s| + 2) / 3
    ensures PackRun(Fresh, s).freeBits == CarryAfter(|s|)
    ensures AllUnits(Pack(s))
    decreases |s|
  {
    if |s| >= 3 {
      PackSplit(s);
      PackShape(s[3..]);
      AllUnitsAppend(Group(s[0], s[1], s[2]), Pack(s[3..]));
      Third(|s| - 3);
    } else {
      PackShortShape(s);
    }
  }

  /** The units of a fresh stream spell the input bits, then the carry's zero bits. */
  lemma PackBits(s: seq<byte>)
    ensures UnitBits(Pack(s)) == ByteBits(s) + NoBits(CarryAfter(|s|))
  {
    var q := PackRun(Fresh, s);
    PackRunBits(Fresh, s);
    PackShape(s);
    assert Committed(Fresh) == [];
    assert UnitBits(q.units) == [] + ByteBits(s) + NoBits(q.freeBits);
    assert [] + ByteBits(s) == ByteBits(s);
  }

  // ---------------------------------------------------------------------------
  // Unpacking
  // ---------------------------------------------------------------------------

  lemma DecodeFromTwo(prev: byte, u: seq<byte>, k: nat)
    requires |u| >= 1 && k >= 1
    ensures DecodeRun(prev, u, 2, k) == Emit(((prev & 0x03) << 6) | (u[0] & 0x3F), 1, DecodeRun(u[0], u[1..], 0, k - 1))
  {
  }

  lemma DecodeFromFour(prev: byte, u: seq<byte>, k: nat)
    requires |u| >= 1 && k >= 1
    ensures DecodeRun(prev, u, 4, k) == Emit(((prev & 0x0F) << 4) | ((u[0] >> 2) & 0x0F), 1, DecodeRun(u[0], u[1..], 2, k - 1))
  {
  }

  lemma DecodeFromZero(prev: byte, u: seq<byte>, k: nat)
    requires |u| >= 2 && k >= 1
    ensures DecodeRun(prev, u, 0, k) == Emit((u[0] << 2) | ((u[1] >> 4) & 0x03), 2, DecodeRun(u[1], u[2..], 4, k - 1))
  {
  }

  /** From carry 0, four units decode to three bytes and return to carry 0. */
  lemma DecodeFour(prev: byte, u: seq<byte>, k: nat)
    requires |u| >= 4 && k >= 3
    ensures var d := DecodeRun(prev, u, 0, k);
      var e := DecodeRun(u[3], u[4..], 0, k - 3);
      d == Decoded([(u[0] << 2) | ((u[1] >> 4) & 0x03),
                    ((u[1] & 0x0F) << 4) | ((u[2] >> 2) & 0x0F),
                    ((u[2] & 0x03) << 6) | (u[3] & 0x3F)] + e.bytes,
                   4 + e.used, e.remBits, e.partial)
  {
    DecodeFromZero(prev, u, k);
    DecodeFromFour(u[1], u[2..], k - 1);
    assert u[2..][0] == u[2] && u[2..][1..] == u[3..];
    DecodeFromTwo(u[2], u[3..], k - 2);
    assert u[3..][0] == u[3] && u[3..][1..] == u[4..];
    var e := DecodeRun(u[3], u[4..], 0, k - 3);
    var b0, b1, b2 := (u[0] << 2) | ((u[1] >> 4) & 0x03),
      ((u[1] & 0x0F) << 4) | ((u[2] >> 2) & 0x0F), ((u[2] & 0x03) << 6) | (u[3] & 0x3F);
    Cons3(b0, b1, b2, e.bytes);
  }

  lemma Cons3<T>(a: T, b: T, c: T, s: seq<T>)
    ensures [a] + ([b] + ([c] + s)) == [a, b, c] + s
  {
  }

  /** Decoding a group gives back its three bytes. */
  lemma UngroupGroup(a: byte, b: byte, c: byte)
    ensures var g := Group(a, b, c);
      (g[0] << 2) | ((g[1] >> 4) & 0x03) == a &&
      ((g[1] & 0x0F) << 4) | ((g[2] >> 2) & 0x0F) == b &&
      ((g[2] & 0x03) << 6) | (g[3] & 0x3F) == c
  {
  }

  lemma UngroupShort(a: byte, b: byte)
    ensures ((a >> 2) << 2) | ((((a & 0x03) << 4) >> 4) & 0x03) == a
    ensures var y := ((a & 0x03) << 4) | (b >> 4);
      ((a >> 2) << 2) | ((y >> 4) & 0x03) == a &&
      ((y & 0x0F) << 4) | ((((b & 0x0F) << 2) >> 2) & 0x0F) == b
  {
  }

  lemma DropGroup<T>(g: seq<T>, r: seq<T>)
    requires |g| == 4
    ensures (g + r)[3] == g[3] && (g + r)[4..] == r
  {
  }

  lemma ConsThree<T>(s: seq<T>)
    requires |s| >= 3
    ensures [s[0], s[1], s[2]] + s[3..] == s
  {
  }

  lemma RoundTripOne(prev: byte, s: seq<byte>, k: nat)
    requires |s| == 1 && k >= 1
    ensures DecodeRun(prev, Pack(s), 0, k) == Decoded(s, |Pack(s)|, CarryAfter(|s|), None)
  {
    assert s == [s[0]];
    PackOneByte(s[0]);
    DecodeOneByte(prev, s[0], k);
  }

  lemma DecodeOneByte(prev: byte, a: byte, k: nat)
    requires k >= 1
    ensures DecodeRun(prev, [a >> 2, (a & 0x03) << 4], 0, k) == Decoded([a], 2, 4, None)
  {
    var x, y := a >> 2, (a & 0x03) << 4;
    DecodeFromZero(prev, [x, y], k);
    assert [x, y][2..] == [];
    UngroupShort(a, a);
  }

  lemma RoundTripTwo(prev: byte, s: seq<byte>, k: nat)
    requires |s| == 2 && k >= 2
    ensures DecodeRun(prev, Pack(s), 0, k) == Decoded(s, |Pack(s)|, CarryAfter(|s|), None)
  {
    assert s == [s[0], s[1]];
    PackTwoBytes(s[0], s[1]);
    DecodeTwoBytes(prev, s[0], s[1], k);
  }

  /** From carry 0, three units decode to two bytes and leave carry 2. */
  lemma DecodeThreeUnits(prev: byte, x: byte, y: byte, z: byte, k: nat)
    requires k >= 2
    ensures DecodeRun(prev, [x, y, z], 0, k)
         == Decoded([(x << 2) | ((y >> 4) & 0x03), ((y & 0x0F) << 4) | ((z >> 2) & 0x0F)], 3, 2, None)
  {
    var u := [x, y, z];
    DecodeFromZero(prev, u, k);
    assert u[1] == y && u[2..] == [z];
    DecodeFromFour(y, [z], k - 1);
    assert [z][1..] == [];
  }

  lemma DecodeTwoBytes(prev: byte, a: byte, b: byte, k: nat)
    requires k >= 2
    ensures DecodeRun(prev, [a >> 2, ((a & 0x03) << 4) | (b >> 4), (b & 0x0F) << 2], 0, k)
         == Decoded([a, b], 3, 2, None)
  {
    var x, y, z := a >> 2, ((a & 0x03) << 4) | (b >> 4), (b & 0x0F) << 2;
    DecodeThreeUnits(prev, x, y, z, k);
    UngroupShort(a, b);
  }

  lemma RoundTripGroup(prev: byte, s: seq<byte>, k: nat)
    requires |s| >= 3 && k >= 3
    ensures DecodeRun(prev, Pack(s), 0, k) ==
      var e := DecodeRun(Group(s[0], s[1], s[2])[3], Pack(s[3..]), 0, k - 3);
      Decoded([s[0], s[1], s[2]] + e.bytes, 4 + e.used, e.remBits, e.partial)
  {
    var g := Group(s[0], s[1], s[2]);
    PackSplit(s);
    DropGroup(g, Pack(s[3..]));
    DecodeFour(prev, Pack(s), k);
    UngroupGroup(s[0], s[1], s[2]);
  }

  /**
   * Round trip: unpacking the units a fresh stream packed for `s`, asking for
   * at least |s| bytes, yields `s`, consumes every unit, ends without a
   * partial byte, and leaves the same carry the packer ended with.
   */
  lemma {:induction false} RoundTrip(prev: byte, s: seq<byte>, k: nat)
    requires k >= |s|
    ensures DecodeRun(prev, Pack(s), 0, k) == Decoded(s, |Pack(s)|, CarryAfter(|s|), None)
    decreases |s|
  {
    if |s| >= 3 {
      var g := Group(s[0], s[1], s[2]);
      RoundTrip(g[3], s[3..], k - 3);
      RoundTripStep(prev, s, k);
    } else if |s| == 0 {
      assert Pack(s) == [];
    } else if |s| == 1 {
      RoundTripOne(prev, s, k);
    } else {
      RoundTripTwo(prev, s, k);
    }
  }

  /** The inductive step of RoundTrip: one group in front of a round trip. */
  lemma RoundTripStep(prev: byte, s: seq<byte>, k: nat)
    requires |s| >= 3 && k >= |s|
    requires DecodeRun(Group(s[0], s[1], s[2])[3], Pack(s[3..]), 0, k - 3)
      == Decoded(s[3..], |Pack(s[3..])|, CarryAfter(|s| - 3), None)
    ensures DecodeRun(prev, Pack(s), 0, k) == Decoded(s, |Pack(s)|, CarryAfter(|s|), None)
  {
    RoundTripGroup(prev, s, k);
    ConsThree(s);
    PackSplit(s);
    assert |Pack(s)| == 4 + |Pack(s[3..])|;
    assert CarryAfter(|s| - 3) == CarryAfter(|s|);
  }

  /**
   * Truncation: from carry 0, when the caller asks for at least as many bytes
   * as there are units, the units run out just after the first unit of a new
   * byte exactly when their count is 1 mod 4; all units are consumed and
   * 3/4 of their count (rounded down) bytes are completed.
   */
  lemma {:induction false} DecodeTruncated(prev: byte, u: seq<byte>, k: nat)
    requires k >= |u|
    ensures var d := DecodeRun(prev, u, 0, k);
      && (d.partial.Some? <==> |u| % 4 == 1)
      && d.used == |u|
      && |d.bytes| == 3 * |u| / 4
    decreases |u|
  {
    if |u| >= 4 {
      DecodeFourShape(prev, u, k);
      DecodeTruncated(u[3], u[4..], k - 3);
      Quarter(|u| - 4);
    } else {
      DecodeShort(prev, u, k);
    }
  }

  lemma Quarter(n: nat)
    ensures (n + 4) % 4 == n % 4 && 3 * (n + 4) / 4 == 3 + 3 * n / 4
  {
  }

  /** What DecodeFour says about the lengths and the partial byte only. */
  lemma DecodeFourShape(prev: byte, u: seq<byte>, k: nat)
    requires |u| >= 4 && k >= 3
    ensures var d := DecodeRun(prev, u, 0, k);
      var e := DecodeRun(u[3], u[4..], 0, k - 3);
      && |d.bytes| == 3 + |e.bytes| && d.used == 4 + e.used && d.partial == e.partial
  {
    DecodeFour(prev, u, k);
  }

  /** DecodeTruncated for fewer than four units. */
  lemma DecodeShort(prev: byte, u: seq<byte>, k: nat)
    requires |u| < 4 && k >= |u|
    ensures var d := DecodeRun(prev, u, 0, k);
      && (d.partial.Some? <==> |u| % 4 == 1)
      && d.used == |u|
      && |d.bytes| == 3 * |u| / 4
  {
    if |u| >= 2 {
      DecodeFromZero(prev, u, k);
      if |u| == 3 {
        DecodeFromFour(u[1], u[2..], k - 1);
        assert u[2..][1..] == [];
      } else {
        assert u[2..] == [];
      }
    }
  }
}
