/**
 * `SixBitsStream`: a stream adaptor over an outer, seekable in-memory stream.
 * In `Pack` mode every byte written to it is spread over six-bit units on the
 * outer stream; in `Unpack` mode reading from it rebuilds bytes from the
 * units of the outer stream. The carries `_previosOutputByteFreeBits` and
 * `_previosInputByteRemBits` persist from one call to the next.
 */
module Streams {
  import opened Base
  import opened SixBits
  import opened SixBitsLemmas

  datatype Mode = Pack | Unpack

  // ---------------------------------------------------------------------------
  // The outer memory stream
  // ---------------------------------------------------------------------------

  /**
   * The contents of a memory stream after `WriteByte(v)` at position `i`:
   * the byte at `i` is overwritten, or appended when `i` is the end.
   */
  function Put<T>(s: seq<T>, i: nat, v: T): (r: seq<T>)
    requires i <= |s|
    ensures |r| == if i == |s| then |s| + 1 else |s|
    ensures r[..i] == s[..i] && r[i] == v
    ensures i < |s| ==> r[i + 1..] == s[i + 1..]
  {
    if i == |s| then s + [v] else s[i := v]
  }

  /** The old contents `o` of a memory stream written over from the start with `u`. */
  function Overlay<T>(u: seq<T>, o: seq<T>): (r: seq<T>)
    ensures |r| == if |u| < |o| then |o| else |u|
    ensures r[..|u|] == u
  {
    if |u| < |o| then u + o[|u|..] else u
  }

  lemma PutOverlay<T>(u: seq<T>, o: seq<T>, v: T)
    ensures Put(Overlay(u, o), |u|, v) == Overlay(u + [v], o)
  {
  }

  lemma PutOverlayLast<T>(u: seq<T>, o: seq<T>, v: T)
    requires |u| > 0
    ensures Put(Overlay(u, o), |u| - 1, v) == Overlay(u[..|u| - 1] + [v], o)
  {
  }

  /** Rewriting the last unit and appending one: what the outer stream then holds. */
  lemma RewriteLast<T>(u: seq<T>, o: seq<T>, x: T, y: T)
    requires |u| > 0
    ensures Put(Put(Overlay(u, o), |u| - 1, x), |u|, y) == Overlay(u[..|u| - 1] + [x, y], o)
  {
    PutOverlayLast(u, o, x);
    PutOverlay(u[..|u| - 1] + [x], o, y);
    Snoc2(u[..|u| - 1], x, y);
  }

  lemma OverlayTwice<T>(u: seq<T>, w: seq<T>, o: seq<T>)
    requires |u| <= |w|
    ensures Overlay(w, Overlay(u, o)) == Overlay(w, o)
  {
  }

  lemma Snoc2<T>(a: seq<T>, x: T, y: T)
    ensures a + [x] + [y] == a + [x, y]
  {
  }

  /** Packing one more byte of `buf` extends the run by one `PackByte`. */
  lemma PackRunSnoc(p: Packer, buf: seq<byte>, lo: int, i: int)
    requires p.Valid() && 0 <= lo <= i < |buf|
    ensures PackRun(p, buf[lo..i + 1]) == PackByte(PackRun(p, buf[lo..i]), buf[i])
  {
    var s, c := buf[lo..i], buf[i];
    assert s + [c] == buf[lo..i + 1];
    PackRunAppend(p, s, [c]);
    PackRunOne(PackRun(p, s), c);
  }

  /** A run over one byte is one `PackByte`. */
  lemma PackRunOne(p: Packer, c: byte)
    requires p.Valid()
    ensures PackRun(p, [c]) == PackByte(p, c)
  {
    assert [c][1..] == [];
  }

  lemma OverlayPrefix<T>(s: seq<T>, n: nat)
    requires n <= |s|
    ensures Overlay(s[..n], s) == s
  {
  }

  /** The unit just before position `p`, which states 4 and 2 re-read. */
  function Prev(s: seq<byte>, p: int): byte {
    if 0 < p <= |s| then s[p - 1] else 0
  }

  // ---------------------------------------------------------------------------
  // One step of the `Read` loop, on the specification
  // ---------------------------------------------------------------------------

  lemma AfterEmit(pre: seq<byte>, n: nat, b: byte, m: nat, e: Decoded)
    ensures After(pre, n, Emit(b, m, e)) == After(pre + [b], n + m, e)
  {
    assert pre + ([b] + e.bytes) == pre + [b] + e.bytes;
  }

  /** Case "2_0": the units at `q` and `q + 1` complete a byte from carry 0. */
  lemma DecodeAtZero(prev: byte, s: seq<byte>, q: nat, k: nat)
    requires q + 2 <= |s| && k >= 1
    ensures DecodeRun(prev, s[q..], 0, k)
         == Emit((s[q] << 2) | ((s[q + 1] >> 4) & 0x03), 2, DecodeRun(Prev(s, q + 2), s[q + 2..], 4, k - 1))
  {
    DecodeFromZero(prev, s[q..], k);
    assert s[q..][2..] == s[q + 2..];
  }

  /** Case "0_4": the unit at `q` and the one before it complete a byte. */
  lemma DecodeAtFour(s: seq<byte>, q: nat, k: nat)
    requires 1 <= q < |s| && k >= 1
    ensures DecodeRun(Prev(s, q), s[q..], 4, k)
         == Emit(((s[q - 1] & 0x0F) << 4) | ((s[q] >> 2) & 0x0F), 1, DecodeRun(Prev(s, q + 1), s[q + 1..], 2, k - 1))
  {
    DecodeFromFour(s[q - 1], s[q..], k);
    assert s[q..][1..] == s[q + 1..];
  }

  /** Case "0_2": the unit at `q` and the one before it complete a byte. */
  lemma DecodeAtTwo(s: seq<byte>, q: nat, k: nat)
    requires 1 <= q < |s| && k >= 1
    ensures DecodeRun(Prev(s, q), s[q..], 2, k)
         == Emit(((s[q - 1] & 0x03) << 6) | (s[q] & 0x3F), 1, DecodeRun(Prev(s, q + 1), s[q + 1..], 0, k - 1))
  {
    DecodeFromTwo(s[q - 1], s[q..], k);
    assert s[q..][1..] == s[q + 1..];
  }

  /** The input ends just after the first unit of a byte. */
  lemma DecodeLastUnit(prev: byte, s: seq<byte>, k: nat)
    requires |s| == 1 && k >= 1
    ensures DecodeRun(prev, s, 0, k) == Decoded([], 1, 0, Some(s[0] << 2))
  {
  }

  // ---------------------------------------------------------------------------
  // The state of a stream, and what Write and Read do to it
  // ---------------------------------------------------------------------------

  /**
   * The contents and position of the outer stream and the two carries,
   * `_previosOutputByteFreeBits` and `_previosInputByteRemBits`.
   */
  datatype StreamState = StreamState(outer: seq<byte>, position: int, freeBits: int, remBits: int)

  /** A stream over a memory stream positioned at its start, both carries 0. */
  function Start(contents: seq<byte>): StreamState {
    StreamState(contents, 0, 0, 0)
  }

  /**
   * What holds between calls: in `Pack` mode the bytes before the position
   * are a packer's output whose last unit has `freeBits` free low bits; in
   * `Unpack` mode a nonzero carry means a unit has already been read.
   */
  predicate Inv(mode: Mode, st: StreamState) {
    && 0 <= st.position <= |st.outer|
    && IsCarry(st.freeBits) && IsCarry(st.remBits)
    && (mode == Pack ==> st.remBits == 0 && Packer(st.outer[..st.position], st.freeBits).Valid())
    && (mode == Unpack ==> st.freeBits == 0 && (st.remBits != 0 ==> st.position >= 1))
  }

  /** The packer the bytes before the position amount to. */
  function PackerOf(st: StreamState): Packer
    requires 0 <= st.position <= |st.outer|
  {
    Packer(st.outer[..st.position], st.freeBits)
  }

  /** A packer's units laid over `o0`, positioned after them, form a valid pack state. */
  lemma PackingInv(cur: Packer, o0: seq<byte>)
    requires cur.Valid()
    ensures var st := StreamState(Overlay(cur.units, o0), |cur.units|, cur.freeBits, 0);
      Inv(Pack, st) && PackerOf(st) == cur
  {
  }

  /** The end of the part of `[offset, count)` that lies inside a buffer of length `n`. */
  function InBuffer(count: int, n: int): (hi: int)
    ensures hi <= count && hi <= n && (hi == count || hi == n)
  {
    if count < n then count else n
  }

  /**
   * `Write(buf, offset, count)` on a stream in state `st`: its outcome and
   * the new state. The range check adds `offset` and `count` as C# `int`s, so
   * a sum past 2^31 - 1 wraps to a negative value and passes it; the `for`
   * loop then packs up to the end of the buffer and throws on the first index
   * past it.
   */
  function WriteSpec(mode: Mode, canWrite: bool, st: StreamState, buf: seq<byte>, offset: int, count: int)
    : (StreamState, Outcome)
    requires Inv(mode, st)
  {
    if mode == Unpack then (st, Thrown(NotSupported))
    else if count < 0 || offset < 0 then (st, Thrown(ArgumentOutOfRange))
    else if Wrap32(offset + count) > |buf| then (st, Thrown(ArgumentOutOfRange))
    else if !canWrite then (st, Thrown(InvalidOperation))
    else if |buf| == 0 || count == 0 || offset == |buf| then (st, Done)
    else
      var hi := InBuffer(count, |buf|);
      var q := PackRun(PackerOf(st), if offset < hi then buf[offset..hi] else []);
      (st.(outer := Overlay(q.units, st.outer), position := |q.units|, freeBits := q.freeBits),
       if offset < count && |buf| < count then Thrown(IndexOutOfRange) else Done)
  }

  /** The completed bytes of `e`, preceded by `pre`, after `n` more units. */
  function After(pre: seq<byte>, n: nat, e: Decoded): Decoded {
    Decoded(pre + e.bytes, n + e.used, e.remBits, e.partial)
  }

  /**
   * The state, buffer and result of `Read(buf, offset, count)` on a stream in
   * state `st`. The loop stops after the byte at index `count - 1`, so it
   * produces at most `count - offset` bytes. The range check wraps as in
   * `WriteSpec`.
   */
  function ReadSpec(mode: Mode, canRead: bool, st: StreamState, buf: seq<byte>, offset: int, count: int)
    : (res: (StreamState, seq<byte>, Result<int>))
    requires Inv(mode, st)
    ensures |res.1| == |buf|
  {
    if mode == Pack then (st, buf, Failure(NotSupported))
    else if count < 0 || offset < 0 then (st, buf, Failure(ArgumentOutOfRange))
    else if Wrap32(offset + count) > |buf| then (st, buf, Failure(ArgumentOutOfRange))
    else if !canRead then (st, buf, Failure(InvalidOperation))
    else if |buf| == 0 || count == 0 || offset == |buf| then (st, buf, Success(0))
    else ReadRun(st, buf, offset, count)
  }

  /**
   * The `while` loop of `Read` and the check after it, once the guards have
   * passed: the bytes decoded into `buf[offset..]` up to the end of the
   * buffer or `count`, whichever comes first. When `count` lies past the end
   * of the buffer and input remains, the loop reads one more unit and
   * storing it throws.
   */
  function ReadRun(st: StreamState, buf: seq<byte>, offset: int, count: int): (res: (StreamState, seq<byte>, Result<int>))
    requires Inv(Unpack, st) && 0 <= offset
    ensures |res.1| == |buf|
  {
    var (st', buf', r) := ReadWithin(st, buf, offset, InBuffer(count, |buf|));
    if r.Success? && offset < count && |buf| < count && st'.position < |st'.outer| then
      (st'.(position := st'.position + 1), buf', Failure(IndexOutOfRange))
    else
      (st', buf', r)
  }

  /**
   * The `while` loop of `Read` and the check after it, over `[offset, hi)`
   * inside the buffer: the units decoded into `buf[offset..]`, and
   * `InvalidOperationException` when the input ends halfway through a byte.
   */
  function ReadWithin(st: StreamState, buf: seq<byte>, offset: int, hi: int): (res: (StreamState, seq<byte>, Result<int>))
    requires Inv(Unpack, st) && 0 <= offset && hi <= |buf|
    ensures |res.1| == |buf|
  {
    var k := if offset < hi then hi - offset else 0;
    var d := DecodeRun(Prev(st.outer, st.position), st.outer[st.position..], st.remBits, k);
    var w := Written(d);
    (st.(position := st.position + d.used, remBits := d.remBits),
     if offset < hi then buf[..offset] + w + buf[offset + |w|..] else buf,
     if d.partial.Some? then Failure(InvalidOperation) else Success(|d.bytes|))
  }

  /**
   * What a call of `Read` is to produce: the buffer before the call, the
   * position the call starts from, the whole decoding, and the range.
   */
  datatype ReadGoal = ReadGoal(b0: seq<byte>, p0: int, goal: Decoded, offset: int, count: int)

  /**
   * The loop of `Read` after reading `outer[..pos]` into `buf[..ri]`: the
   * buffer outside the finished range is as before the call, and finishing
   * the decoding from here gives the goal. `need == 2` when the unit at
   * `pos - 1` started a byte at `buf[ri]` that still lacks two bits.
   */
  ghost predicate Progress(buf: seq<byte>, outer: seq<byte>, remBits: int, g: ReadGoal, pos: int, ri: int, need: int) {
    && IsCarry(remBits)
    && 0 <= g.p0 <= pos <= |outer| && (remBits != 0 ==> pos >= 1)
    && 0 <= g.offset <= ri <= g.count <= |buf| && |g.b0| == |buf|
    && buf[..g.offset] == g.b0[..g.offset]
    && (need == 0 || need == 2)
    && (need == 0 ==>
          && buf[ri..] == g.b0[ri..]
          && g.goal == After(buf[g.offset..ri], pos - g.p0,
                             DecodeRun(Prev(outer, pos), outer[pos..], remBits, g.count - ri)))
    && (need == 2 ==>
          && remBits == 0 && g.p0 < pos && ri < g.count
          && buf[ri] == outer[pos - 1] << 2
          && buf[ri + 1..] == g.b0[ri + 1..]
          && g.goal == After(buf[g.offset..ri], pos - 1 - g.p0,
                             DecodeRun(Prev(outer, pos - 1), outer[pos - 1..], 0, g.count - ri)))
  }

  /** A unit at `q` that completes the byte `v` by itself moves the loop one byte on. */
  lemma EmitOne(buf: seq<byte>, outer: seq<byte>, g: ReadGoal, q: int, ri: int, v: byte, rem: int, rem': int)
    requires Progress(buf, outer, rem, g, q, ri, 0) && q < |outer| && ri < g.count && IsCarry(rem')
    requires DecodeRun(Prev(outer, q), outer[q..], rem, g.count - ri)
          == Emit(v, 1, DecodeRun(Prev(outer, q + 1), outer[q + 1..], rem', g.count - (ri + 1)))
    ensures Progress(buf[ri := v], outer, rem', g, q + 1, ri + 1, 0)
  {
    var b := buf[ri := v];
    var rest := DecodeRun(Prev(outer, q + 1), outer[q + 1..], rem', g.count - (ri + 1));
    assert g.goal == After(buf[g.offset..ri], q - g.p0, Emit(v, 1, rest));
    AfterEmit(buf[g.offset..ri], q - g.p0, v, 1, rest);
    UpdateSlices(buf, g.offset, ri, v);
    DropOne(buf, g.b0, ri);
    assert b[..g.offset] == g.b0[..g.offset];
    assert b[ri + 1..] == g.b0[ri + 1..];
    assert g.goal == After(b[g.offset..ri + 1], q + 1 - g.p0, rest);
  }

  /** The first unit of a byte, read at `q`, leaves the loop waiting for two more bits. */
  lemma StartOne(buf: seq<byte>, outer: seq<byte>, g: ReadGoal, q: int, ri: int, v: byte)
    requires Progress(buf, outer, 0, g, q, ri, 0) && q < |outer| && ri < g.count
    requires v == outer[q] << 2
    ensures Progress(buf[ri := v], outer, 0, g, q + 1, ri, 2)
  {
    UpdateSlices(buf, g.offset, ri, v);
    DropOne(buf, g.b0, ri);
    assert buf[ri := v][g.offset..ri] == buf[g.offset..ri];
  }

  /** The unit at `q + 1` completes the byte started at `q`; four bits remain. */
  lemma FinishTwo(buf: seq<byte>, outer: seq<byte>, g: ReadGoal, q: int, ri: int, v: byte)
    requires Progress(buf, outer, 0, g, q + 1, ri, 2) && q + 2 <= |outer|
    requires v == buf[ri] | ((outer[q + 1] >> 4) & 0x03)
    ensures Progress(buf[ri := v], outer, 4, g, q + 2, ri + 1, 0)
  {
    var k := g.count - ri;
    var rest := DecodeRun(Prev(outer, q + 2), outer[q + 2..], 4, k - 1);
    assert g.goal == After(buf[g.offset..ri], q - g.p0, DecodeRun(Prev(outer, q), outer[q..], 0, k));
    DecodeAtZero(Prev(outer, q), outer, q, k);
    assert g.goal == After(buf[g.offset..ri], q - g.p0, Emit(v, 2, rest));
    AfterEmit(buf[g.offset..ri], q - g.p0, v, 2, rest);
    UpdateSlices(buf, g.offset, ri, v);
    assert buf[ri + 1..] == g.b0[ri + 1..];
    assert rest == DecodeRun(Prev(outer, q + 2), outer[q + 2..], 4, g.count - (ri + 1));
  }

  /** Case "0_4" completes the byte at `ri` from the unit at `q` and the one before it. */
  lemma FourStep(buf: seq<byte>, outer: seq<byte>, g: ReadGoal, q: int, ri: int)
    requires Progress(buf, outer, 4, g, q, ri, 0) && q < |outer| && ri < g.count
    ensures Progress(buf[ri := ((outer[q - 1] & 0x0F) << 4) | ((outer[q] >> 2) & 0x0F)], outer, 2, g, q + 1, ri + 1, 0)
  {
    DecodeAtFour(outer, q, g.count - ri);
    EmitOne(buf, outer, g, q, ri, ((outer[q - 1] & 0x0F) << 4) | ((outer[q] >> 2) & 0x0F), 4, 2);
  }

  /** Case "0_2" completes the byte at `ri` from the unit at `q` and the one before it. */
  lemma TwoStep(buf: seq<byte>, outer: seq<byte>, g: ReadGoal, q: int, ri: int)
    requires Progress(buf, outer, 2, g, q, ri, 0) && q < |outer| && ri < g.count
    ensures Progress(buf[ri := ((outer[q - 1] & 0x03) << 6) | (outer[q] & 0x3F)], outer, 0, g, q + 1, ri + 1, 0)
  {
    DecodeAtTwo(outer, q, g.count - ri);
    EmitOne(buf, outer, g, q, ri, ((outer[q - 1] & 0x03) << 6) | (outer[q] & 0x3F), 2, 0);
  }

  /** The input ended after the first unit of a byte: that byte is left half built. */
  lemma EndsHalfBuilt(buf: seq<byte>, outer: seq<byte>, g: ReadGoal, ri: int)
    requires Progress(buf, outer, 0, g, |outer|, ri, 2)
    ensures g.goal.partial == Some(buf[ri]) && g.goal.bytes == buf[g.offset..ri]
    ensures g.goal.used == |outer| - g.p0 && g.goal.remBits == 0
    ensures buf == g.b0[..g.offset] + Written(g.goal) + g.b0[g.offset + |Written(g.goal)|..]
  {
    var pos := |outer|;
    var done := buf[g.offset..ri];
    DecodeLastUnit(Prev(outer, pos - 1), outer[pos - 1..], g.count - ri);
    assert outer[pos - 1..][0] == outer[pos - 1];
    assert done + [] == done;
    assert g.goal == Decoded(done, pos - g.p0, 0, Some(buf[ri]));
    assert Written(g.goal) == done + [buf[ri]];
    assert g.offset + |Written(g.goal)| == ri + 1;
    assert buf == buf[..g.offset] + (done + [buf[ri]]) + buf[ri + 1..];
  }

  /** The input ended, or `count` bytes were produced, between two bytes. */
  lemma EndsBetweenBytes(buf: seq<byte>, outer: seq<byte>, remBits: int, g: ReadGoal, pos: int, ri: int)
    requires Progress(buf, outer, remBits, g, pos, ri, 0) && (pos == |outer| || ri == g.count)
    ensures g.goal.partial == None && g.goal.bytes == buf[g.offset..ri] && |g.goal.bytes| == ri - g.offset
    ensures g.goal.used == pos - g.p0 && g.goal.remBits == remBits
    ensures buf == g.b0[..g.offset] + Written(g.goal) + g.b0[g.offset + |Written(g.goal)|..]
  {
    assert DecodeRun(Prev(outer, pos), outer[pos..], remBits, g.count - ri) == Decoded([], 0, remBits, None);
    assert buf == buf[..g.offset] + buf[g.offset..ri] + buf[ri..];
  }

  /** Updating index `i` extends the slice ending at `i` and keeps the rest. */
  lemma UpdateSlices<T>(s: seq<T>, lo: int, i: int, v: T)
    requires 0 <= lo <= i < |s|
    ensures s[i := v][lo..i + 1] == s[lo..i] + [v]
    ensures s[i := v][..lo] == s[..lo] && s[i := v][i + 1..] == s[i + 1..]
  {
  }

  lemma DropOne<T>(s: seq<T>, t: seq<T>, i: int)
    requires 0 <= i < |s| == |t| && s[i..] == t[i..]
    ensures s[i + 1..] == t[i + 1..]
  {
    assert s[i + 1..] == s[i..][1..];
  }

  // ---------------------------------------------------------------------------
  // The class
  // ---------------------------------------------------------------------------

  class SixBitsStream {
    const mode: Mode
    /** `CanRead` and `CanWrite` of the outer stream. */
    const outerCanRead: bool
    const outerCanWrite: bool
    /** The contents and `Position` of the outer stream. */
    var outer: seq<byte>
    var position: int
    /** `_previosOutputByteFreeBits`: free low bits of the last unit written. */
    var freeBits: int
    /** `_previosInputByteRemBits`: bits of the last unit read not yet used. */
    var remBits: int

    function Snapshot(): StreamState
      reads this
    {
      StreamState(outer, position, freeBits, remBits)
    }

    predicate Valid()
      reads this
    {
      Inv(mode, Snapshot())
    }

    /**
     * A stream over a memory stream holding `contents`, positioned at its
     * start. Packing re-reads the last unit written, so in `Pack` mode the
     * outer stream is readable.
     */
    constructor(contents: seq<byte>, mode: Mode, canRead: bool, canWrite: bool)
      requires mode == Pack ==> canRead
      ensures Valid()
      ensures this.mode == mode && outerCanRead == canRead && outerCanWrite == canWrite
      ensures Snapshot() == Start(contents)
    {
      this.mode := mode;
      outerCanRead := canRead;
      outerCanWrite := canWrite;
      outer := contents;
      position := 0;
      freeBits := 0;
      remBits := 0;
    }

    /** `CanRead`: only an unpack stream can be read from. */
    function CanRead(): bool {
      mode == Unpack
    }

    /** `CanWrite`: only a pack stream can be written to. */
    function CanWrite(): bool {
      mode == Pack
    }

    /** `CanSeek`: the stream never seeks. */
    function CanSeek(): bool {
      false
    }

    /**
     * `_outerStream.ReadByte()`, the outer memory stream's own method (not a
     * member of `SixBitsStream`): the byte at the position, or `None` (-1)
     * at the end.
     */
    method ReadByte() returns (r: Option<byte>)
      requires 0 <= position <= |outer|
      modifies this`position
      ensures old(position) < |outer| ==> r == Some(outer[old(position)]) && position == old(position) + 1
      ensures old(position) == |outer| ==> r == None && position == old(position)
    {
      if position == |outer| {
        r := None;
      } else {
        r := Some(outer[position]);
        position := position + 1;
      }
    }

    /**
     * `WriteByte` of `SixBitsStream`, which calls `_outerStream.WriteByte`:
     * overwrite or append at the position, then advance.
     */
    method WriteByte(v: byte)
      requires 0 <= position <= |outer|
      modifies this`outer, this`position
      ensures outer == Put(old(outer), old(position), v) && position == old(position) + 1
    {
      outer := Put(outer, position, v);
      position := position + 1;
    }

    /**
     * Packs `buffer[offset..count)` onto the outer stream. Each byte appends
     * one or two units; in carry states 4 and 2 the last unit is first
     * rewound, re-read and rewritten with the byte's top bits merged in.
     */
    method Write(buffer: array<byte>, offset: int, count: int) returns (o: Outcome)
      requires Valid()
      modifies this`outer, this`position, this`freeBits
      ensures Valid()
      ensures (Snapshot(), o) == WriteSpec(mode, outerCanWrite, old(Snapshot()), buffer[..], offset, count)
    {
      if mode == Unpack {
        return Thrown(NotSupported);
      }
      if count < 0 || offset < 0 {
        return Thrown(ArgumentOutOfRange);
      }
      if Wrap32(offset + count) > buffer.Length {
        return Thrown(ArgumentOutOfRange);
      }
      if !outerCanWrite {
        return Thrown(InvalidOperation);
      }
      if buffer.Length == 0 || count == 0 || offset == buffer.Length {
        return Done;
      }
      var hi := InBuffer(count, buffer.Length);
      if offset < hi {
        ghost var o0 := outer;
        ghost var cur0 := PackerOf(Snapshot());
        OverlayPrefix(outer, position);
        ghost var cur := PackRange(buffer, offset, hi, o0, cur0);
        PackingInv(cur, o0);
        assert Snapshot() == StreamState(Overlay(cur.units, o0), |cur.units|, cur.freeBits, 0);
      } else {
        // the `for` loop packs nothing
        OverlayPrefix(outer, position);
      }
      if offset < count && buffer.Length < count {
        // `bufferToPack[i]` with `i == bufferToPack.Length`, or `i == offset` past it
        return Thrown(IndexOutOfRange);
      }
      return Done;
    }

    /**
     * The pack side has produced `cur` over the outer stream that held `o0`
     * when the call began: the units of `cur` lie at its start, the rest of
     * `o0` is left alone, and the position and the carry are those of `cur`.
     */
    ghost predicate Packing(cur: Packer, o0: seq<byte>)
      reads this
    {
      && mode == Pack && remBits == 0 && cur.Valid()
      && outer == Overlay(cur.units, o0) && position == |cur.units| && freeBits == cur.freeBits
    }

    /**
     * The `for` loop of `Write`, over `buffer[offset..count)`: from the
     * packer `cur0` over `o0` it packs those bytes one by one, ending at
     * their `PackRun`.
     */
    method PackRange(buffer: array<byte>, offset: int, count: int, ghost o0: seq<byte>, ghost cur0: Packer)
      returns (ghost cur: Packer)
      requires 0 <= offset <= count <= buffer.Length && Packing(cur0, o0)
      modifies this`outer, this`position, this`freeBits
      ensures cur == PackRun(cur0, buffer[offset..count]) && Packing(cur, o0)
    {
      cur := cur0;
      var i := offset;
      while i < count
        invariant offset <= i <= count
        invariant Packing(cur, o0) && cur == PackRun(cur0, buffer[offset..i])
        decreases count - i
      {
        var c := buffer[i];
        PackRunSnoc(cur0, buffer[..], offset, i);
        PackOne(c, o0, cur);
        cur := PackByte(cur, c);
        i := i + 1;
      }
    }

    /** The body of the `Write` loop: a `switch` on the carry. */
    method PackOne(c: byte, ghost o0: seq<byte>, ghost cur: Packer)
      requires Packing(cur, o0)
      modifies this`outer, this`position, this`freeBits
      ensures Packing(PackByte(cur, c), o0)
    {
      if freeBits == 0 {
        PackWhenFull(c, o0, cur);
      } else if freeBits == 4 {
        PackWhenFour(c, o0, cur);
      } else {
        PackWhenTwo(c, o0, cur);
      }
    }

    /** The `case 0` arm of the `Write` loop: two new units. */
    method PackWhenFull(c: byte, ghost o0: seq<byte>, ghost cur: Packer)
      requires Packing(cur, o0) && freeBits == 0
      modifies this`outer, this`position, this`freeBits
      ensures Packing(PackByte(cur, c), o0)
    {
      PutOverlay(cur.units, o0, c >> 2);
      WriteByte(c >> 2);
      PutOverlay(cur.units + [c >> 2], o0, (c & 0x03) << 4);
      WriteByte((c & 0x03) << 4);
      freeBits := 4;
      Snoc2(cur.units, c >> 2, (c & 0x03) << 4);
      StepFromZero(cur.units, c);
    }

    /**
     * The `case 4` arm of the `Write` loop: the last unit is rewound, re-read
     * and rewritten with the top four bits of `c`; one new unit follows.
     */
    method PackWhenFour(c: byte, ghost o0: seq<byte>, ghost cur: Packer)
      requires Packing(cur, o0) && freeBits == 4
      modifies this`outer, this`position, this`freeBits
      ensures Packing(PackByte(cur, c), o0)
    {
      ghost var n := |cur.units|;
      position := position - 1;
      var last := ReadByte();
      position := position - 1;
      assert last.value == cur.units[n - 1];
      assert cur == Packer(cur.units[..n - 1] + [last.value], 4);
      StepFromLast(cur.units[..n - 1], last.value, 4, c);
      RewriteTwo(last.value | (c >> 4), (c & 0x0F) << 2, o0, cur.units);
      freeBits := 2;
    }

    /**
     * The `case 2` arm of the `Write` loop: the last unit is rewound, re-read
     * and rewritten with the top two bits of `c`; one new unit follows.
     */
    method PackWhenTwo(c: byte, ghost o0: seq<byte>, ghost cur: Packer)
      requires Packing(cur, o0) && freeBits == 2
      modifies this`outer, this`position, this`freeBits
      ensures Packing(PackByte(cur, c), o0)
    {
      ghost var n := |cur.units|;
      position := position - 1;
      var last := ReadByte();
      position := position - 1;
      assert last.value == cur.units[n - 1];
      assert cur == Packer(cur.units[..n - 1] + [last.value], 2);
      StepFromLast(cur.units[..n - 1], last.value, 2, c);
      RewriteTwo(last.value | (c >> 6), c & 0x3F, o0, cur.units);
      freeBits := 0;
    }

    /**
     * Rewrites the last of the units `u` with `x` and appends `y`, the
     * position being just before that last unit.
     */
    method RewriteTwo(x: byte, y: byte, ghost o0: seq<byte>, ghost u: seq<byte>)
      requires |u| >= 1 && outer == Overlay(u, o0) && position == |u| - 1
      modifies this`outer, this`position
      ensures outer == Overlay(u[..|u| - 1] + [x, y], o0) && position == |u| + 1
    {
      WriteByte(x);
      WriteByte(y);
      RewriteLast(u, o0, x, y);
    }

    /**
     * Unpacks units from the outer stream into `buffer[offset..count)`. The
     * counter `needBitCountForByte` is 2 between the two units of a byte
     * started from carry 0; if the outer stream ends there, the half-built
     * byte stays in the buffer and the call fails.
     */
    method Read(buffer: array<byte>, offset: int, count: int) returns (r: Result<int>)
      requires Valid()
      modifies this`position, this`remBits, buffer
      ensures Valid()
      ensures (Snapshot(), buffer[..], r) == ReadSpec(mode, outerCanRead, old(Snapshot()), old(buffer[..]), offset, count)
    {
      if mode == Pack {
        return Failure(NotSupported);
      }
      if count < 0 || offset < 0 {
        return Failure(ArgumentOutOfRange);
      }
      if Wrap32(offset + count) > buffer.Length {
        return Failure(ArgumentOutOfRange);
      }
      if !outerCanRead {
        return Failure(InvalidOperation);
      }
      if buffer.Length == 0 || count == 0 || offset == buffer.Length {
        return Success(0);
      }
      r := ReadLoop(buffer, offset, count);
    }

    /** The `while` loop of `Read` and what follows it, past the guards. */
    method ReadLoop(buffer: array<byte>, offset: int, count: int) returns (r: Result<int>)
      requires Valid() && mode == Unpack && 0 <= offset
      modifies this`position, this`remBits, buffer
      ensures Valid()
      ensures (Snapshot(), buffer[..], r) == ReadRun(old(Snapshot()), old(buffer[..]), offset, count)
    {
      var hi := InBuffer(count, buffer.Length);
      r := ReadInside(buffer, offset, hi);
      if r.Success? && offset < count && buffer.Length < count {
        // `resultIndex` has reached the end of the buffer but not `count`:
        // the loop reads one more unit, and storing into the buffer throws
        var unit := ReadByte();
        if unit.Some? {
          return Failure(IndexOutOfRange);
        }
      }
    }

    /** The `while` loop of `Read` over `[offset, hi)` and the check after it. */
    method ReadInside(buffer: array<byte>, offset: int, hi: int) returns (r: Result<int>)
      requires Valid() && mode == Unpack && 0 <= offset && hi <= buffer.Length
      modifies this`position, this`remBits, buffer
      ensures Valid()
      ensures (Snapshot(), buffer[..], r) == ReadWithin(old(Snapshot()), old(buffer[..]), offset, hi)
    {
      if offset < hi {
        ghost var st0 := Snapshot();
        ghost var g := ReadGoal(buffer[..], position,
          DecodeRun(Prev(outer, position), outer[position..], remBits, hi - offset), offset, hi);
        ghost var want := ReadWithin(st0, g.b0, offset, hi);
        r := UnpackRange(buffer, offset, hi, g);
        assert want.0 == Snapshot() && want.1 == buffer[..] && want.2 == r;
      } else {
        // no byte fits in the buffer
        r := Success(0);
      }
    }

    /**
     * What holds at the head of the `Read` loop, with the position of the
     * outer stream at `pos`, `resultIndex == ri` and
     * `needBitCountForByte == need`: the bytes before `ri` and what the rest
     * of the input yields make up the whole decoding `g.goal`, and the buffer
     * is untouched outside `[g.offset, ri]`.
     */
    ghost predicate Unpacking(buffer: array<byte>, g: ReadGoal, pos: int, ri: int, need: int)
      reads this`outer, this`remBits, buffer
    {
      mode == Unpack && Progress(buffer[..], outer, remBits, g, pos, ri, need)
    }

    /** The `while` loop of `Read` and the check after it. */
    method UnpackRange(buffer: array<byte>, offset: int, count: int, ghost g: ReadGoal) returns (r: Result<int>)
      requires Valid() && mode == Unpack
      requires 0 <= offset < count <= buffer.Length
      requires g == ReadGoal(buffer[..], position,
        DecodeRun(Prev(outer, position), outer[position..], remBits, count - offset), offset, count)
      modifies this`position, this`remBits, buffer
      ensures Valid()
      ensures position == g.p0 + g.goal.used && remBits == g.goal.remBits
      ensures buffer[..] == g.b0[..g.offset] + Written(g.goal) + g.b0[g.offset + |Written(g.goal)|..]
      ensures r == if g.goal.partial.Some? then Failure(InvalidOperation) else Success(|g.goal.bytes|)
    {
      var resultIndex := offset;
      var needBitCountForByte := 0;
      while resultIndex < count
        invariant Valid() && Unpacking(buffer, g, position, resultIndex, needBitCountForByte)
        decreases |outer| - position
      {
        var ended;
        ended, resultIndex, needBitCountForByte := UnpackStep(buffer, g, resultIndex, needBitCountForByte);
        if ended {
          break;
        }
      }
      r := CheckNeed(buffer, g, offset, resultIndex, needBitCountForByte);
    }

    /** The check after the `Read` loop: a half-built byte means the input ran out. */
    method CheckNeed(buffer: array<byte>, ghost g: ReadGoal, offset: int, resultIndex: int, needBitCountForByte: int)
      returns (r: Result<int>)
      requires offset == g.offset
      requires Unpacking(buffer, g, position, resultIndex, needBitCountForByte)
      requires position == |outer| || resultIndex == g.count
      ensures position == g.p0 + g.goal.used && remBits == g.goal.remBits
      ensures buffer[..] == g.b0[..g.offset] + Written(g.goal) + g.b0[g.offset + |Written(g.goal)|..]
      ensures r == if g.goal.partial.Some? then Failure(InvalidOperation) else Success(|g.goal.bytes|)
    {
      if needBitCountForByte != 0 {
        Truncated(buffer, g, resultIndex);
        return Failure(InvalidOperation);
      }
      Completed(buffer, g, resultIndex);
      return Success(resultIndex - offset);
    }

    /**
     * One test of the `while` condition and, when the outer stream yields a
     * unit, one pass of the loop body: the `switch` on
     * `needBitCountForByte` and `_previosInputByteRemBits`.
     */
    method UnpackStep(buffer: array<byte>, ghost g: ReadGoal, ri: int, need: int)
      returns (ended: bool, ri': int, need': int)
      requires Valid() && Unpacking(buffer, g, position, ri, need) && ri < g.count
      modifies buffer, this`position, this`remBits
      ensures Valid() && Unpacking(buffer, g, position, ri', need')
      ensures ended ==> position == |outer| && ri' == ri && need' == need
      ensures !ended ==> position == old(position) + 1
    {
      var inputByte := ReadByte();
      if inputByte.None? {
        return true, ri, need;
      }
      ri', need' := Consume(buffer, g, ri, need, inputByte.value);
      ended := false;
    }

    /** The `switch` on the carries, for the unit just read. */
    method Consume(buffer: array<byte>, ghost g: ReadGoal, ri: int, need: int, unit: byte)
      returns (ri': int, need': int)
      requires 1 <= position <= |outer| && outer[position - 1] == unit
      requires Unpacking(buffer, g, position - 1, ri, need) && ri < g.count
      modifies buffer, this`position, this`remBits
      ensures Unpacking(buffer, g, position, ri', need') && position == old(position)
    {
      if need == 0 && remBits == 0 {
        StartByte(buffer, g, ri, unit);
        return ri, 2;
      } else if need == 2 {
        FinishByte(buffer, g, ri, unit);
        return ri + 1, 0;
      } else {
        ri' := ByteAfterCarry(buffer, g, ri, unit);
        return ri', 0;
      }
    }

    /** Cases "0_4" and "0_2": a carry is left from the previous unit. */
    method ByteAfterCarry(buffer: array<byte>, ghost g: ReadGoal, ri: int, unit: byte) returns (ri': int)
      requires 1 <= position <= |outer| && outer[position - 1] == unit && remBits != 0
      requires Unpacking(buffer, g, position - 1, ri, 0) && ri < g.count
      modifies buffer, this`position, this`remBits
      ensures Unpacking(buffer, g, position, ri', 0) && position == old(position)
    {
      if remBits == 4 {
        ByteAfterFour(buffer, g, ri, unit);
      } else {
        ByteAfterTwo(buffer, g, ri, unit);
      }
      return ri + 1;
    }

    /** Case "0_0": the first unit of a byte gives its top six bits. */
    method StartByte(buffer: array<byte>, ghost g: ReadGoal, ri: int, unit: byte)
      requires 1 <= position <= |outer| && outer[position - 1] == unit && remBits == 0
      requires Unpacking(buffer, g, position - 1, ri, 0) && ri < g.count
      modifies buffer, this`remBits
      ensures Unpacking(buffer, g, position, ri, 2) && remBits == 0
    {
      ghost var b := buffer[..];
      buffer[ri] := unit << 2;
      remBits := 0;
      assert buffer[..] == b[ri := buffer[ri]];
      StartOne(b, outer, g, position - 1, ri, buffer[ri]);
    }

    /** Case "2_0": the second unit gives the low two bits; four bits remain. */
    method FinishByte(buffer: array<byte>, ghost g: ReadGoal, ri: int, unit: byte)
      requires 1 <= position <= |outer| && outer[position - 1] == unit
      requires Unpacking(buffer, g, position - 1, ri, 2)
      modifies buffer, this`remBits
      ensures Unpacking(buffer, g, position, ri + 1, 0) && remBits == 4
    {
      ghost var b := buffer[..];
      buffer[ri] := buffer[ri] | ((unit >> 4) & 0x03);
      remBits := 4;
      assert buffer[..] == b[ri := buffer[ri]];
      FinishTwo(b, outer, g, position - 2, ri, buffer[ri]);
    }

    /** Case "0_4": rewind to re-read the previous unit; two bits remain. */
    method ByteAfterFour(buffer: array<byte>, ghost g: ReadGoal, ri: int, unit: byte)
      requires 1 <= position <= |outer| && outer[position - 1] == unit && remBits == 4
      requires Unpacking(buffer, g, position - 1, ri, 0) && ri < g.count
      modifies buffer, this`position, this`remBits
      ensures Unpacking(buffer, g, position, ri + 1, 0) && remBits == 2 && position == old(position)
    {
      ghost var q := position - 1;
      ghost var b := buffer[..];
      var previous := Reread();
      MergeFour(buffer, ri, previous, unit);
      remBits := 2;
      FourStep(b, outer, g, q, ri);
    }

    /** Case "0_2": rewind to re-read the previous unit; no bits remain. */
    method ByteAfterTwo(buffer: array<byte>, ghost g: ReadGoal, ri: int, unit: byte)
      requires 1 <= position <= |outer| && outer[position - 1] == unit && remBits == 2
      requires Unpacking(buffer, g, position - 1, ri, 0) && ri < g.count
      modifies buffer, this`position, this`remBits
      ensures Unpacking(buffer, g, position, ri + 1, 0) && remBits == 0 && position == old(position)
    {
      ghost var q := position - 1;
      ghost var b := buffer[..];
      var previous := Reread();
      MergeTwo(buffer, ri, previous, unit);
      remBits := 0;
      TwoStep(b, outer, g, q, ri);
    }

    /**
     * `Position -= 2; ReadByte(); Position++` just after reading a unit: the
     * unit before it, with the position back where it was.
     */
    method Reread() returns (previous: byte)
      requires 2 <= position <= |outer|
      modifies this`position
      ensures position == old(position) && previous == outer[position - 2]
    {
      position := position - 2;
      var read := ReadByte();
      position := position + 1;
      previous := read.value;
    }

    /** The two assignments to `buffer[ri]` of case "0_4". */
    method MergeFour(buffer: array<byte>, ri: int, previous: byte, unit: byte)
      requires 0 <= ri < buffer.Length
      modifies buffer
      ensures buffer[..] == old(buffer[..])[ri := ((previous & 0x0F) << 4) | ((unit >> 2) & 0x0F)]
    {
      buffer[ri] := (previous & 0x0F) << 4;
      buffer[ri] := buffer[ri] | ((unit >> 2) & 0x0F);
    }

    /** The two assignments to `buffer[ri]` of case "0_2". */
    method MergeTwo(buffer: array<byte>, ri: int, previous: byte, unit: byte)
      requires 0 <= ri < buffer.Length
      modifies buffer
      ensures buffer[..] == old(buffer[..])[ri := ((previous & 0x03) << 6) | (unit & 0x3F)]
    {
      buffer[ri] := (previous & 0x03) << 6;
      buffer[ri] := buffer[ri] | (unit & 0x3F);
    }

    /** The loop stopped with a byte half built: the input ran out. */
    lemma Truncated(buffer: array<byte>, g: ReadGoal, ri: int)
      requires Unpacking(buffer, g, position, ri, 2) && position == |outer|
      ensures g.goal.partial == Some(buffer[ri]) && g.goal.bytes == buffer[g.offset..ri]
      ensures g.goal.used == position - g.p0 && g.goal.remBits == 0
      ensures buffer[..] == g.b0[..g.offset] + Written(g.goal) + g.b0[g.offset + |Written(g.goal)|..]
    {
      EndsHalfBuilt(buffer[..], outer, g, ri);
    }

    /** The loop stopped between bytes: the input ran out or `count` was reached. */
    lemma Completed(buffer: array<byte>, g: ReadGoal, ri: int)
      requires Unpacking(buffer, g, position, ri, 0) && (position == |outer| || ri == g.count)
      ensures g.goal.partial == None && g.goal.bytes == buffer[g.offset..ri] && |g.goal.bytes| == ri - g.offset
      ensures g.goal.used == position - g.p0 && g.goal.remBits == remBits
      ensures buffer[..] == g.b0[..g.offset] + Written(g.goal) + g.b0[g.offset + |Written(g.goal)|..]
    {
      EndsBetweenBytes(buffer[..], outer, remBits, g, position, ri);
    }
  }
}
