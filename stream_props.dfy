/**
 * What `SixBitsStream.Write` and `SixBitsStream.Read` guarantee, stated on
 * the functions `WriteSpec` and `ReadSpec` that the two methods are proved
 * against.
 */
module StreamProperties {
  import opened Base
  import opened SixBits
  import opened SixBitsLemmas
  import opened Streams

  // ---------------------------------------------------------------------------
  // Write
  // ---------------------------------------------------------------------------

  /**
   * The capabilities a stream reports agree with its guards: it can be read
   * from or written to but not both, a stream that cannot be read fails
   * every `Read` with `NotSupportedException`, and one that cannot be
   * written to throws it from every `Write`.
   */
  lemma Capabilities(s: SixBitsStream, st: StreamState, buf: seq<byte>, offset: int, count: int)
    requires Inv(s.mode, st)
    ensures s.CanRead() != s.CanWrite() && !s.CanSeek()
    ensures !s.CanRead() ==> ReadSpec(s.mode, s.outerCanRead, st, buf, offset, count).2 == Failure(NotSupported)
    ensures !s.CanWrite() ==> WriteSpec(s.mode, s.outerCanWrite, st, buf, offset, count).1 == Thrown(NotSupported)
  {
  }

  /**
   * A fresh pack stream over an empty memory stream, after `Write(s, 0, |s|)`:
   * the memory stream holds the units of `s`, n + ceil(n/3) of them, each at
   * most 63; read six bits at a time they spell the bits of `s` followed by
   * the free bits of the carry, which is 0, 4 or 2 for n mod 3 = 0, 1 or 2.
   */
  lemma FreshWrite(s: seq<byte>)
    ensures var (st, o) := WriteSpec(Mode.Pack, true, Start([]), s, 0, |s|);
      && o == Done
      && st == StreamState(SixBits.Pack(s), |SixBits.Pack(s)|, CarryAfter(|s|), 0)
      && |st.outer| == |s| + (|s| + 2) / 3 && AllUnits(st.outer)
      && UnitBits(st.outer) == ByteBits(s) + NoBits(CarryAfter(|s|))
  {
    PackShape(s);
    PackBits(s);
    if s != [] {
      assert s[0..|s|] == s;
      assert PackerOf(Start([])) == Fresh;
    }
  }

  /**
   * The guards of `Write`, in source order: `Unpack` mode, a negative
   * argument, a range past the buffer and a read-only outer stream throw.
   * The range check adds the two arguments as C# `int`s, so a sum past
   * 2^31 - 1 wraps and is admitted; the loop then throws
   * `IndexOutOfRangeException` exactly when its range starts inside a
   * nonempty buffer, or past it, and ends past it. That never happens
   * when the sum does not wrap. Otherwise `Write` returns normally. The
   * stream changes only when a byte of the buffer is packed.
   */
  lemma WriteGuards(mode: Mode, canWrite: bool, st: StreamState, buf: seq<byte>, offset: int, count: int)
    requires Inv(mode, st)
    ensures var (st', o) := WriteSpec(mode, canWrite, st, buf, offset, count);
      var admitted := mode == Mode.Pack && 0 <= count && 0 <= offset && Wrap32(offset + count) <= |buf|;
      var pastEnd := |buf| != 0 && offset != |buf| && offset < count && |buf| < count;
      && (mode == Unpack ==> o == Thrown(NotSupported))
      && (mode == Mode.Pack && (count < 0 || offset < 0) ==> o == Thrown(ArgumentOutOfRange))
      && (mode == Mode.Pack && 0 <= count && 0 <= offset && |buf| < offset + count <= 0x7FFF_FFFF
          ==> o == Thrown(ArgumentOutOfRange))
      && (admitted && !canWrite ==> o == Thrown(InvalidOperation))
      && (o == Thrown(IndexOutOfRange) <==> admitted && canWrite && pastEnd)
      && (o == Thrown(IndexOutOfRange) ==> offset + count > 0x7FFF_FFFF)
      && (o == Done <==> admitted && canWrite && !pastEnd)
      && (st' != st ==> admitted && canWrite && 0 <= offset < count && offset < |buf|)
  {
    var (st', o) := WriteSpec(mode, canWrite, st, buf, offset, count);
    if mode == Mode.Pack && 0 <= count && 0 <= offset && Wrap32(offset + count) <= |buf| && canWrite
       && |buf| != 0 && count != 0 && offset != |buf| && offset >= InBuffer(count, |buf|)
    {
      assert PackRun(PackerOf(st), []) == PackerOf(st);
      OverlayPrefix(st.outer, st.position);
    }
  }

  /**
   * The range check wraps: `Write(buf, 2^31 - 1, 1)` on a 10-byte buffer
   * passes it, since the sum is -2^31, and returns normally without
   * packing anything.
   */
  lemma WriteWraps(st: StreamState, buf: seq<byte>)
    requires Inv(Mode.Pack, st) && |buf| == 10
    ensures WriteSpec(Mode.Pack, true, st, buf, 0x7FFF_FFFF, 1) == (st, Done)
  {
    assert PackRun(PackerOf(st), []) == PackerOf(st);
    OverlayPrefix(st.outer, st.position);
  }

  /**
   * `Write(buf, 5, 2^31 - 3)` on a 10-byte buffer passes the range check
   * and packs `buf[5..10]`, leaving the stream as writing those five bytes
   * would, then throws `IndexOutOfRangeException` at `buf[10]`.
   */
  lemma WritePastEnd(st: StreamState, buf: seq<byte>)
    requires Inv(Mode.Pack, st) && |buf| == 10
    ensures var (st', o) := WriteSpec(Mode.Pack, true, st, buf, 5, 0x7FFF_FFFD);
      o == Thrown(IndexOutOfRange) && st' == WriteSpec(Mode.Pack, true, st, buf[5..], 0, 5).0
  {
    assert buf[5..][0..5] == buf[5..10];
  }

  /**
   * `Write` only appends: every unit before the last, still unfinished one
   * keeps its value, and the memory stream past the new position is as
   * before.
   */
  lemma WriteKeepsEarlier(canWrite: bool, st: StreamState, buf: seq<byte>, offset: int, count: int)
    requires Inv(Mode.Pack, st)
    ensures var st' := WriteSpec(Mode.Pack, canWrite, st, buf, offset, count).0;
      var m := if st.freeBits == 0 then st.position else st.position - 1;
      && st.position <= st'.position <= |st'.outer|
      && st'.outer[..m] == st.outer[..m]
      && st'.outer[st'.position..] == (if st'.position <= |st.outer| then st.outer[st'.position..] else [])
  {
    var (st', o) := WriteSpec(Mode.Pack, canWrite, st, buf, offset, count);
    if st' != st {
      WriteGuards(Mode.Pack, canWrite, st, buf, offset, count);
      var p := PackerOf(st);
      var hi := InBuffer(count, |buf|);
      PackRunKeepsPrefix(p, buf[offset..hi]);
      var q := PackRun(p, buf[offset..hi]);
      var m := if st.freeBits == 0 then st.position else st.position - 1;
      assert st'.outer[..m] == q.units[..m];
      assert p.units[..m] == st.outer[..m];
    }
  }

  /**
   * The units up to the position spell what the stream had committed, then
   * the bits of `buf[offset..count)` in order, then the free bits of the new
   * carry, all zero.
   */
  lemma WriteBits(st: StreamState, buf: seq<byte>, offset: int, count: int)
    requires Inv(Mode.Pack, st) && 0 <= offset < count && offset + count <= |buf|
    ensures var st' := WriteSpec(Mode.Pack, true, st, buf, offset, count).0;
      UnitBits(st'.outer[..st'.position])
        == Committed(PackerOf(st)) + ByteBits(buf[offset..count]) + NoBits(st'.freeBits)
  {
    PackRunBits(PackerOf(st), buf[offset..count]);
  }

  /**
   * The carry persists from one call to the next: writing `a` and then `b`
   * leaves the stream as writing `a + b` in one call.
   */
  lemma WriteTwice(st: StreamState, a: seq<byte>, b: seq<byte>)
    requires Inv(Mode.Pack, st)
    ensures var st1 := WriteSpec(Mode.Pack, true, st, a, 0, |a|).0;
      Inv(Mode.Pack, st1) &&
      WriteSpec(Mode.Pack, true, st1, b, 0, |b|) == WriteSpec(Mode.Pack, true, st, a + b, 0, |a + b|)
  {
    var p := PackerOf(st);
    var qa := PackRun(p, a);
    PackRunAppend(p, a, b);
    PackRunKeepsPrefix(qa, b);
    assert a[0..|a|] == a && b[0..|b|] == b && (a + b)[0..|a + b|] == a + b;
    var st1 := WriteSpec(Mode.Pack, true, st, a, 0, |a|).0;
    if a == [] {
      assert st1 == st;
      assert a + b == b;
    } else {
      assert PackerOf(st1) == qa;
      if b != [] {
        OverlayTwice(qa.units, PackRun(qa, b).units, st.outer);
      } else {
        assert a + b == a;
      }
    }
  }

  // ---------------------------------------------------------------------------
  // Read
  // ---------------------------------------------------------------------------

  /**
   * When the range lies inside the buffer the wrap-around plays no part:
   * past the guards, `Read` is its loop over `[offset, count)`.
   */
  lemma ReadInRange(st: StreamState, buf: seq<byte>, offset: int, count: int)
    requires Inv(Unpack, st) && 0 <= offset && 0 < count && offset + count <= |buf|
    ensures ReadSpec(Unpack, true, st, buf, offset, count) == ReadWithin(st, buf, offset, count)
  {
    assert Wrap32(offset + count) <= offset + count;
    assert InBuffer(count, |buf|) == count;
  }

  /**
   * Round trip: a fresh unpack stream over the units packed for `s`, read
   * into a buffer with offset 0 and `count >= |s|`, returns |s|, puts `s`
   * at the start of the buffer, leaves the rest of the buffer alone, and
   * ends after the last unit with the carry the packer ended with.
   */
  lemma FreshRead(s: seq<byte>, buf: seq<byte>, count: int)
    requires |s| <= count <= |buf|
    ensures var (st, buf', r) := ReadSpec(Unpack, true, Start(SixBits.Pack(s)), buf, 0, count);
      && r == Success(|s|)
      && buf'[..|s|] == s && buf'[|s|..] == buf[|s|..] && |buf'| == |buf|
      && st.position == |SixBits.Pack(s)| && st.remBits == CarryAfter(|s|)
  {
    var u := SixBits.Pack(s);
    if count == 0 {
      assert s == [];
    } else {
      var st0 := Start(u);
      ReadInRange(st0, buf, 0, count);
      RoundTrip(0, s, count);
      assert u[0..] == u && Prev(u, 0) == 0;
      var d := DecodeRun(0, u, 0, count);
      assert d == Decoded(s, |u|, CarryAfter(|s|), None);
      assert Written(d) == s;
      var (st', buf', r) := ReadWithin(st0, buf, 0, count);
      assert st'.position == |u| && st'.remBits == CarryAfter(|s|);
      assert r == Success(|s|);
      assert buf' == buf[..0] + s + buf[|s|..];
    }
  }

  /** Packing `s` on a fresh stream and unpacking the result gives back `s`. */
  lemma PackThenUnpack(s: seq<byte>, buf: seq<byte>, count: int)
    requires |s| <= count <= |buf|
    ensures var packed := WriteSpec(Mode.Pack, true, Start([]), s, 0, |s|).0.outer;
      var (_, buf', r) := ReadSpec(Unpack, true, Start(packed), buf, 0, count);
      r == Success(|s|) && buf'[..|s|] == s
  {
    FreshWrite(s);
    FreshRead(s, buf, count);
  }

  /**
   * Truncation: reading all remaining units from carry 0 fails with
   * `InvalidOperationException` exactly when their number is 1 mod 4, that
   * is, when the input ends just after the first unit of a new byte;
   * otherwise it returns 3/4 of their number (rounded down). Either way all
   * units are consumed.
   */
  lemma ReadToEnd(st: StreamState, buf: seq<byte>, offset: int, count: int)
    requires Inv(Unpack, st) && st.remBits == 0
    requires 0 <= offset < count && offset + count <= |buf|
    requires count - offset >= |st.outer| - st.position
    ensures var n := |st.outer| - st.position;
      var (st', _, r) := ReadSpec(Unpack, true, st, buf, offset, count);
      && r == (if n % 4 == 1 then Failure(InvalidOperation) else Success(3 * n / 4))
      && st'.position == |st.outer|
  {
    ReadInRange(st, buf, offset, count);
    var rest := st.outer[st.position..];
    var d := DecodeRun(Prev(st.outer, st.position), rest, 0, count - offset);
    DecodeTruncated(Prev(st.outer, st.position), rest, count - offset);
    var (st', _, r) := ReadWithin(st, buf, offset, count);
    assert st'.position == st.position + d.used;
    assert r == if d.partial.Some? then Failure(InvalidOperation) else Success(|d.bytes|);
  }

  /**
   * The guards of `Read`, in source order: `Pack` mode, a negative argument,
   * a range past the buffer and an unreadable outer stream fail and change
   * nothing; an empty buffer, `count == 0` or `offset == |buf|` return 0 and
   * change nothing either. The range check wraps as in `WriteGuards`, and
   * `IndexOutOfRangeException` comes only from a wrapped sum. The buffer
   * keeps its length and changes only from `offset` on.
   */
  lemma ReadGuards(mode: Mode, canRead: bool, st: StreamState, buf: seq<byte>, offset: int, count: int)
    requires Inv(mode, st)
    ensures var (st', buf', r) := ReadSpec(mode, canRead, st, buf, offset, count);
      var admitted := mode == Unpack && 0 <= count && 0 <= offset && Wrap32(offset + count) <= |buf|;
      && (mode == Mode.Pack ==> r == Failure(NotSupported))
      && (mode == Unpack && (count < 0 || offset < 0) ==> r == Failure(ArgumentOutOfRange))
      && (mode == Unpack && 0 <= count && 0 <= offset && |buf| < offset + count <= 0x7FFF_FFFF
          ==> r == Failure(ArgumentOutOfRange))
      && (admitted && !canRead ==> r == Failure(InvalidOperation))
      && (admitted && canRead && (|buf| == 0 || count == 0 || offset == |buf|)
          ==> st' == st && buf' == buf && r == Success(0))
      && (r == Failure(IndexOutOfRange)
          ==> admitted && canRead && 0 <= offset < count && |buf| < count && offset + count > 0x7FFF_FFFF)
      && (st' != st ==> admitted && canRead && 0 <= offset < count && offset != |buf|)
      && (buf' != buf ==> admitted && canRead && 0 <= offset < count && offset < |buf|)
      && |buf'| == |buf| && (0 <= offset <= |buf| ==> buf'[..offset] == buf[..offset])
  {
  }

  /**
   * The range check wraps: `Read(buf, 2^31 - 1, 1)` on a 10-byte buffer
   * passes it and returns 0 without reading.
   */
  lemma ReadWraps(st: StreamState, buf: seq<byte>)
    requires Inv(Unpack, st) && |buf| == 10
    ensures ReadSpec(Unpack, true, st, buf, 0x7FFF_FFFF, 1) == (st, buf, Success(0))
  {
  }

  /**
   * `Read(buf, 1, 2^31 - 1)` on a 2-byte buffer over the units 0x10, 0x20,
   * 0x30 passes the range check, decodes 0x42 into `buf[1]` from the first
   * two units, then reads the third and throws `IndexOutOfRangeException`
   * storing it into `buf[2]`.
   */
  lemma ReadPastEnd(buf: seq<byte>)
    requires |buf| == 2
    ensures ReadSpec(Unpack, true, Start([0x10, 0x20, 0x30]), buf, 1, 0x7FFF_FFFF)
         == (StreamState([0x10, 0x20, 0x30], 3, 0, 4), [buf[0], 0x42], Failure(IndexOutOfRange))
  {
    var u: seq<byte> := [0x10, 0x20, 0x30];
    assert u[0..] == u && u[2..] == [0x30];
    assert DecodeRun(Prev(u, 0), u, 0, 1) == Decoded([0x42], 2, 4, None);
    assert buf[..1] + [0x42] + buf[2..] == [buf[0], 0x42];
  }
}
