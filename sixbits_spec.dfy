/**
 * The six-bit repacking codec of `SixBitsStream`, as pure functions.
 *
 * Packing regroups a byte stream into 6-bit units, most significant bit first,
 * exactly like the bit grouping of section 4 of RFC 4648 (Base64) but with no
 * alphabet and no `=` padding: each unit is stored in its own byte and its
 * numeric value (0..63) is what the colour mapping consumes. Unpacking is the
 * inverse walk over the units.
 */
module SixBits {
  import opened Base

  /** The carry values of both state machines, cycling 0 -> 4 -> 2 -> 0. */
  predicate IsCarry(bits: int) {
    bits == 0 || bits == 4 || bits == 2
  }

  /** The carry that follows `bits` after one more byte. */
  function NextCarry(bits: int): int {
    if bits == 0 then 4 else if bits == 4 then 2 else 0
  }

  /** The carry after `n` bytes from a fresh stream. */
  function CarryAfter(n: nat): int {
    if n % 3 == 0 then 0 else if n % 3 == 1 then 4 else 2
  }

  /** The low `bits` bits of `x` are still free, that is, zero. */
  predicate LowClear(x: byte, bits: int) {
    (bits == 4 ==> x & 0x0F == 0) && (bits == 2 ==> x & 0x03 == 0)
  }

  /** Every byte of `u` is a 6-bit unit. */
  predicate AllUnits(u: seq<byte>) {
    forall i :: 0 <= i < |u| ==> u[i] <= 63
  }

  // ---------------------------------------------------------------------------
  // Packing
  // ---------------------------------------------------------------------------

  /**
   * What the pack side of the stream has produced so far: the bytes written to
   * the outer stream and `_previosOutputByteFreeBits`, the number of low bits
   * of the last unit still to be filled.
   */
  datatype Packer = Packer(units: seq<byte>, freeBits: int) {
    predicate Valid() {
      IsCarry(freeBits) &&
      (freeBits != 0 ==> |units| > 0 && LowClear(units[|units| - 1], freeBits))
    }
  }

  /** A pack stream over an empty outer stream. */
  const Fresh := Packer([], 0)

  /**
   * One iteration of the `Write` loop: merge the top bits of `c` into the
   * unfinished last unit (if any) and append the rest of `c`.
   */
  function PackByte(p: Packer, c: byte): (q: Packer)
    requires p.Valid()
    ensures q.Valid() && q.freeBits == NextCarry(p.freeBits)
    ensures p.freeBits == 0 ==> |q.units| == |p.units| + 2 && q.units[..|p.units|] == p.units
    ensures p.freeBits != 0 ==>
      |q.units| == |p.units| + 1 && q.units[..|p.units| - 1] == p.units[..|p.units| - 1]
    ensures AllUnits(p.units) ==> AllUnits(q.units)
  {
    var n := |p.units|;
    if p.freeBits == 0 then
      StartBits(c);
      UnitsExtended(p.units, c >> 2, (c & 0x03) << 4);
      Packer(p.units + [c >> 2, (c & 0x03) << 4], 4)
    else if p.freeBits == 4 then
      FillFourBits(p.units[n - 1], c);
      UnitsReplaced(p.units, p.units[n - 1] | (c >> 4), (c & 0x0F) << 2);
      Packer(p.units[..n - 1] + [p.units[n - 1] | (c >> 4), (c & 0x0F) << 2], 2)
    else
      FillTwoBits(p.units[n - 1], c);
      UnitsReplaced(p.units, p.units[n - 1] | (c >> 6), c & 0x3F);
      Packer(p.units[..n - 1] + [p.units[n - 1] | (c >> 6), c & 0x3F], 0)
  }

  /** Appending two units to units gives units. */
  lemma UnitsExtended(u: seq<byte>, x: byte, y: byte)
    ensures AllUnits(u) && x <= 63 && y <= 63 ==> AllUnits(u + [x, y])
  {
  }

  /** Replacing the last unit by two units gives units. */
  lemma UnitsReplaced(u: seq<byte>, x: byte, y: byte)
    requires |u| > 0
    ensures AllUnits(u) && x <= 63 && y <= 63 ==> AllUnits(u[..|u| - 1] + [x, y])
  {
  }

  /** From carry 0 a byte gives two units, the second with its low four bits free. */
  lemma StartBits(c: byte)
    ensures c >> 2 <= 63 && (c & 0x03) << 4 <= 63 && LowClear((c & 0x03) << 4, 4)
  {
  }

  /** From carry 4 the top four bits fill the last unit, and the rest leaves two bits free. */
  lemma FillFourBits(u: byte, c: byte)
    requires LowClear(u, 4)
    ensures u <= 63 ==> u | (c >> 4) <= 63
    ensures (c & 0x0F) << 2 <= 63 && LowClear((c & 0x0F) << 2, 2)
  {
  }

  /** From carry 2 the top two bits fill the last unit, and the low six make a whole unit. */
  lemma FillTwoBits(u: byte, c: byte)
    requires LowClear(u, 2)
    ensures u <= 63 ==> u | (c >> 6) <= 63
    ensures c & 0x3F <= 63
  {
  }

  /** The `Write` loop over the bytes `s`, starting from `p`. */
  function PackRun(p: Packer, s: seq<byte>): (q: Packer)
    requires p.Valid()
    ensures q.Valid()
    decreases |s|
  {
    if s == [] then p else PackRun(PackByte(p, s[0]), s[1..])
  }

  /** The units a fresh pack stream writes for `s`. */
  function Pack(s: seq<byte>): seq<byte> {
    PackRun(Fresh, s).units
  }

  /** The four units of a three-byte group (section 4 of RFC 4648, without the alphabet). */
  function Group(a: byte, b: byte, c: byte): (g: seq<byte>)
    ensures |g| == 4 && AllUnits(g)
  {
    [a >> 2, ((a & 0x03) << 4) | (b >> 4), ((b & 0x0F) << 2) | (c >> 6), c & 0x3F]
  }

  // ---------------------------------------------------------------------------
  // Unpacking
  // ---------------------------------------------------------------------------

  /**
   * The result of running the `Read` loop for at most `k` output bytes:
   * the bytes completed, the number of units consumed, the carry
   * `_previosInputByteRemBits` afterwards, and, when the input ended after the
   * first unit of a new byte, the half-built byte left in the buffer.
   */
  datatype Decoded = Decoded(bytes: seq<byte>, used: nat, remBits: int, partial: Option<byte>)

  /** `d` preceded by the byte `b`, completed from `n` more units. */
  function Emit(b: byte, n: nat, d: Decoded): Decoded {
    Decoded([b] + d.bytes, n + d.used, d.remBits, d.partial)
  }

  /** The bytes the `Read` loop writes into the caller's buffer. */
  function Written(d: Decoded): seq<byte> {
    d.bytes + (if d.partial.Some? then [d.partial.value] else [])
  }

  /**
   * Unpack at most `k` bytes from the units `rest`, in carry state `remBits`;
   * `prev` is the unit just before `rest`, which states 4 and 2 re-read by
   * rewinding the outer stream.
   */
  function DecodeRun(prev: byte, rest: seq<byte>, remBits: int, k: nat): (d: Decoded)
    requires IsCarry(remBits)
    ensures IsCarry(d.remBits) && d.used <= |rest|
    ensures |Written(d)| <= k
    ensures d.partial.Some? ==> d.used == |rest| && d.remBits == 0
    decreases k
  {
    if k == 0 || rest == [] then
      Decoded([], 0, remBits, None)
    else if remBits == 0 then
      if |rest| == 1 then
        Decoded([], 1, 0, Some(rest[0] << 2))
      else
        Emit((rest[0] << 2) | ((rest[1] >> 4) & 0x03), 2, DecodeRun(rest[1], rest[2..], 4, k - 1))
    else if remBits == 4 then
      Emit(((prev & 0x0F) << 4) | ((rest[0] >> 2) & 0x0F), 1, DecodeRun(rest[0], rest[1..], 2, k - 1))
    else
      Emit(((prev & 0x03) << 6) | (rest[0] & 0x3F), 1, DecodeRun(rest[0], rest[1..], 0, k - 1))
  }

  // ---------------------------------------------------------------------------
  // Bit strings, most significant bit first
  // ---------------------------------------------------------------------------

  /** The eight bits of a byte. */
  function Bits8(x: byte): (r: seq<bool>)
    ensures |r| == 8
  {
    [x & 0x80 != 0, x & 0x40 != 0, x & 0x20 != 0, x & 0x10 != 0,
     x & 0x08 != 0, x & 0x04 != 0, x & 0x02 != 0, x & 0x01 != 0]
  }

  /** The six bits of a unit (bits 7 and 6 of the byte are not part of it). */
  function Bits6(x: byte): (r: seq<bool>)
    ensures |r| == 6
  {
    [x & 0x20 != 0, x & 0x10 != 0, x & 0x08 != 0, x & 0x04 != 0, x & 0x02 != 0, x & 0x01 != 0]
  }

  function ByteBits(s: seq<byte>): (r: seq<bool>)
    ensures |r| == 8 * |s|
  {
    if s == [] then [] else Bits8(s[0]) + ByteBits(s[1..])
  }

  function UnitBits(u: seq<byte>): (r: seq<bool>)
    ensures |r| == 6 * |u|
  {
    if u == [] then [] else Bits6(u[0]) + UnitBits(u[1..])
  }

  function NoBits(n: nat): (r: seq<bool>)
    ensures |r| == n
  {
    seq(n, _ => false)
  }

  /** The bits the pack side has committed so far: all unit bits but the free tail. */
  function Committed(p: Packer): seq<bool>
    requires p.Valid()
  {
    UnitBits(p.units)[..6 * |p.units| - p.freeBits]
  }
}
