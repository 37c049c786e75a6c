/**
 * `Main`: admit a file, build its header, pack header and data into
 * six-bit units, choose the bitmap's size and paint one colour per unit on
 * four pixels. Reading the file, its name and its MD5 hash are inputs here.
 */
module Encoder {
  import opened Base
  import opened SixBits
  import opened SixBitsLemmas
  import opened Streams
  import opened StreamProperties
  import opened Colors
  import opened Canvas
  import opened Layout
  import opened Headers

  // ---------------------------------------------------------------------------
  // Admission
  // ---------------------------------------------------------------------------

  /**
   * The checks of `Main` before anything is written: a file longer than
   * `MaxFileSize`, then one shorter than `MinFileSize`, then a name of more
   * than 32 bytes is refused. An admitted name is padded with zero bytes to
   * 32.
   */
  function Admit(length: int, name: seq<byte>): (r: Result<seq<byte>>)
    ensures r.Success? <==> MinFileSize <= length <= MaxFileSize && |name| <= 32
    ensures length > MaxFileSize ==> r == Failure(FileTooLarge)
    ensures length <= MaxFileSize && length < MinFileSize ==> r == Failure(FileTooSmall)
    ensures MinFileSize <= length <= MaxFileSize && |name| > 32 ==> r == Failure(NameTooLong)
    ensures r.Success? ==>
      && |r.value| == 32 && r.value[..|name|] == name
      && (forall i :: |name| <= i < 32 ==> r.value[i] == 0)
  {
    if length > MaxFileSize then Failure(FileTooLarge)
    else if length < MinFileSize then Failure(FileTooSmall)
    else if |name| > 32 then Failure(NameTooLong)
    else
      var padded := name + Zeros(32 - |name|);
      assert padded[..|name|] == name;
      Success(padded)
  }

  // ---------------------------------------------------------------------------
  // Packing
  // ---------------------------------------------------------------------------

  /**
   * The local function `Pack` of `Main`: a pack stream over a new memory
   * stream, one `Write` of the whole input, and the memory stream's contents.
   */
  method PackBytes(input: array<byte>) returns (units: seq<byte>)
    ensures units == SixBits.Pack(input[..])
    ensures |units| == input.Length + (input.Length + 2) / 3 && AllUnits(units)
  {
    var pack := new SixBitsStream([], Mode.Pack, true, true);
    var o := pack.Write(input, 0, input.Length);
    FreshWrite(input[..]);
    units := pack.outer;
  }

  /** The number of units `n` bytes pack into: one per byte and one more per three bytes, rounded up. */
  function PackedLength(n: nat): nat {
    n + (n + 2) / 3
  }

  // ---------------------------------------------------------------------------
  // The bitmap's size
  // ---------------------------------------------------------------------------

  /** The size `GetOptimalSize` plans for a file of `n` bytes, four pixels per estimated unit. */
  function PlannedSize(n: nat): (size: (int, int))
    requires n <= MaxFileSize
    ensures 1 <= size.0 <= MaxWidth && 1 <= size.1 <= MaxHeight
  {
    var t := TotalSize(n) * DuplCoeef;
    WithinBounds(MaxWidth, MaxHeight, t);
    GetOptimalSize(MaxWidth, MaxHeight, t)
  }

  /** The planned area exceeds four pixels per estimated unit. */
  lemma PlannedArea(n: nat)
    requires n <= MaxFileSize
    ensures PlannedSize(n).0 * PlannedSize(n).1 > DuplCoeef * TotalSize(n)
  {
  }

  /** The bitmap's size as written: the planned width goes through `Width += Width % DuplCoeef`. */
  function SizeAsWritten(n: nat): (int, int)
    requires n <= MaxFileSize
  {
    var planned := PlannedSize(n);
    (AdjustWidth(planned.0), planned.1)
  }

  /** The bitmap's size with the width rounded up to a multiple of 4. */
  function Size(n: nat): (size: (int, int))
    requires n <= MaxFileSize
    ensures 1 <= size.0 <= MaxWidth + 2 && 1 <= size.1 <= MaxHeight
    ensures size.0 % DuplCoeef == 0
  {
    var planned := PlannedSize(n);
    (PadWidth(planned.0), planned.1)
  }

  /**
   * The estimate `TotalSize(n)` falls short of the units the header and
   * the data pack into by at most one.
   */
  lemma EstimateShort(n: nat)
    ensures TotalSize(n) <= PackedLength(HeaderSize + n) <= TotalSize(n) + 1
  {
  }

  /**
   * With the width rounded up, every unit of an admissible file fits the
   * bitmap: the fill loop never leaves it.
   */
  lemma SizeFits(n: nat)
    requires n <= MaxFileSize
    ensures Fits(PackedLength(HeaderSize + n), Size(n).0, Size(n).1)
  {
    EstimateShort(n);
    PlannedArea(n);
    FitsByArea(PackedLength(HeaderSize + n), TotalSize(n), PlannedSize(n).0, Size(n).0, Size(n).1);
  }

  /**
   * A width that is a multiple of 4 and no smaller than one whose area
   * exceeds `4 * t` leaves room for `t + 1` colours.
   */
  lemma FitsByArea(u: int, t: int, w0: int, w: int, h: int)
    requires 0 <= w0 <= w && h >= 0 && w0 * h > DuplCoeef * t && w % DuplCoeef == 0 && u <= t + 1
    ensures DuplCoeef * u <= w * h
  {
    MulLe(w0, w, h);
    var j := w / DuplCoeef;
    assert w == DuplCoeef * j;
    assert w * h == DuplCoeef * (j * h);
  }

  /**
   * As written, an admitted file whose planned width is odd gets a width
   * that is 2 more than a multiple of 4: the cursor never wraps, and the
   * units do not fit on the first row.
   */
  lemma SizeAsWrittenFails(n: nat)
    requires MinFileSize <= n <= MaxFileSize && PlannedSize(n).0 % 2 == 1
    ensures !Fits(PackedLength(HeaderSize + n), SizeAsWritten(n).0, SizeAsWritten(n).1)
  {
  }

  /**
   * The smallest admitted file: `GetOptimalSize` plans a 299 x 299 square,
   * the width becomes 302, and the 22318 units need 89272 pixels on one
   * row: `SetPixel(302, 0, ...)` throws.
   */
  lemma SizeAsWrittenCounterexample()
    ensures PlannedSize(MinFileSize) == (299, 299)
    ensures SizeAsWritten(MinFileSize) == (302, 299)
    ensures PackedLength(HeaderSize + MinFileSize) == 22318
    ensures !Fits(PackedLength(HeaderSize + MinFileSize), 302, 299)
  {
    ConstantValues();
    var t := TotalSize(MinFileSize) * DuplCoeef;
    assert t == 89268;
    SqrtIs(89268, 298);
    assert GetOptimalSize(MaxWidth, MaxHeight, t) == (299, 299);
    assert AdjustWidth(299) == 302;
  }

  /** The one root of `t`. */
  lemma SqrtIs(t: nat, r: nat)
    requires r * r <= t < (r + 1) * (r + 1)
    ensures FloorSqrt(t) == r
  {
    var q := FloorSqrt(t);
    if q < r {
      MulLe(q + 1, r, q + 1);
      MulLe(q + 1, r, r);
    } else if q > r {
      MulLe(r + 1, q, r + 1);
      MulLe(r + 1, q, q);
    }
  }

  // ---------------------------------------------------------------------------
  // The image
  // ---------------------------------------------------------------------------

  /** The header of an admitted file of `n` bytes. */
  function HeaderFor(n: nat, paddedName: seq<byte>, hash: seq<byte>): (h: Header)
    requires n <= MaxFileSize && |paddedName| == 32 && |hash| == 16
    ensures h.WellFormed()
  {
    var (w, hgt) := Size(n);
    Header(Marker(), w as bv32, hgt as bv32, n as bv64, paddedName, hash)
  }

  /** The bytes `Main` packs: the header's bytes, then the file. */
  function Payload(data: seq<byte>, paddedName: seq<byte>, hash: seq<byte>): (p: seq<byte>)
    requires |data| <= MaxFileSize && |paddedName| == 32 && |hash| == 16
    ensures |p| == HeaderSize + |data| && p[HeaderSize..] == data
  {
    HeaderBytes(HeaderFor(|data|, paddedName, hash)) + data
  }

  /** The colour of a pixel `Main` did not reach: a new bitmap is black. */
  const Black := Rgb(0, 0, 0)

  /**
   * `Main` up to showing the bitmap. Refused files and a hash that is not
   * 16 bytes long fail; otherwise the bitmap has the planned size and pixel
   * `p` in row-major order shows the colour of unit `p / 4`, black past the
   * last unit.
   */
  method Encode(data: seq<byte>, name: seq<byte>, hash: seq<byte>) returns (r: Result<array2<Rgb>>)
    ensures Admit(|data|, name).Failure? ==> r == Failure(Admit(|data|, name).error)
    ensures Admit(|data|, name).Success? && |hash| != 16 ==> r == Failure(InvalidOperation)
    ensures Admit(|data|, name).Success? && |hash| == 16 ==> r.Success?
    ensures r.Success? ==>
      && Admit(|data|, name).Success? && |hash| == 16
      && fresh(r.value)
      && (r.value.Length0, r.value.Length1) == Size(|data|)
      && Shows(r.value, ColorsFromBytes(SixBits.Pack(Payload(data, Admit(|data|, name).value, hash))), Black)
  {
    var admitted := Admit(|data|, name);
    if admitted.Failure? {
      return Failure(admitted.error);
    }
    if |hash| != 16 {
      return Failure(InvalidOperation);
    }
    var n := |data|;
    var payload := Payload(data, admitted.value, hash);
    var input := new byte[|payload|](i requires 0 <= i < |payload| => payload[i]);
    assert input[..] == payload;
    var units := PackBytes(input);
    var colors := ColorsFromBytes(units);
    assert |colors| == PackedLength(HeaderSize + n);
    var (width, height) := Size(n);
    SizeFits(n);
    var bitmap := Paint(colors, width, height, Black);
    assert colors == ColorsFromBytes(SixBits.Pack(Payload(data, Admit(|data|, name).value, hash)));
    return Success(bitmap);
  }

  /**
   * The image keeps everything: the units are read back from the colours,
   * unpacking them gives the header's bytes and the file, and the header
   * read from its bytes is the one written.
   */
  lemma ImageRoundTrip(data: seq<byte>, paddedName: seq<byte>, hash: seq<byte>, buf: seq<byte>)
    requires |data| <= MaxFileSize && |paddedName| == 32 && |hash| == 16
    requires |buf| >= HeaderSize + |data|
    ensures var payload := Payload(data, paddedName, hash);
      var units := SixBits.Pack(payload);
      && UnitsOf(ColorsFromBytes(units)) == units
      && var (_, buf', r) := ReadSpec(Unpack, true, Start(units), buf, 0, |payload|);
        && r == Success(|payload|)
        && buf'[HeaderSize..|payload|] == data
        && ParseHeader(buf'[..HeaderSize]) == HeaderFor(|data|, paddedName, hash)
  {
    var payload := Payload(data, paddedName, hash);
    UnitsFromColors(payload);
    FreshRead(payload, buf, |payload|);
    var buf' := ReadSpec(Unpack, true, Start(SixBits.Pack(payload)), buf, 0, |payload|).1;
    HeaderFromPayload(data, paddedName, hash, buf');
  }

  /** The colours of packed units give the units back. */
  lemma UnitsFromColors(s: seq<byte>)
    ensures UnitsOf(ColorsFromBytes(SixBits.Pack(s))) == SixBits.Pack(s)
  {
    PackShape(s);
    ColorsRoundTrip(SixBits.Pack(s));
  }

  /** A buffer that starts with the payload holds the header's bytes, then the file. */
  lemma HeaderFromPayload(data: seq<byte>, paddedName: seq<byte>, hash: seq<byte>, buf: seq<byte>)
    requires |data| <= MaxFileSize && |paddedName| == 32 && |hash| == 16
    requires |buf| >= HeaderSize + |data| && buf[..HeaderSize + |data|] == Payload(data, paddedName, hash)
    ensures buf[HeaderSize..HeaderSize + |data|] == data
    ensures ParseHeader(buf[..HeaderSize]) == HeaderFor(|data|, paddedName, hash)
  {
    var h := HeaderFor(|data|, paddedName, hash);
    var p := Payload(data, paddedName, hash);
    assert buf[..HeaderSize] == p[..HeaderSize] == HeaderBytes(h);
    assert buf[HeaderSize..HeaderSize + |data|] == p[HeaderSize..];
    HeaderRoundTrip(h);
  }
}
