/**
 * The size constants of `ImgTest` and the choice of the bitmap's size:
 * `GetOptimalSize` and the width adjustment that follows it in `Main`.
 */
module Layout {

  const MaxWidth := 1850
  const MaxHeight := 850

  /** `Marshal.SizeOf<Header>()`: the packed header structure, 32 + 4 + 4 + 8 + 32 + 16 bytes. */
  const HeaderSize := 96

  /** The header's size in six-bit units, `HeaderSize * 8 / 6`, which is exact. */
  const HeaderSizePack := HeaderSize * 8 / 6

  /**
   * The largest admitted file. The source computes
   * `MaxHeight * (MaxWidth / 4.0) * 6.0 / 8.0 - HeaderSize - 1` in floating
   * point and truncates; the product is exactly `MaxHeight * MaxWidth * 3 / 16`,
   * and truncating a positive value is the floor.
   */
  const MaxFileSize := MaxHeight * MaxWidth * 3 / 16 - HeaderSize - 1

  /** The smallest admitted file: `(HeaderSizePack + 1)^2 + 1`. */
  const MinFileSize := (HeaderSizePack + 1) * (HeaderSizePack + 1) + 1

  /** Each colour is duplicated on this many pixels. */
  const DuplCoeef := 4

  /** The values the constants take. */
  lemma ConstantValues()
    ensures HeaderSizePack == 128 && MaxFileSize == 294746 && MinFileSize == 16642
  {
  }

  function Min(a: int, b: int): int {
    if a <= b then a else b
  }

  /**
   * `Math.Floor(Math.Sqrt(t))`, on integers: the largest `r` with
   * `r * r <= t`.
   */
  function FloorSqrt(t: nat): (r: nat)
    ensures r * r <= t < (r + 1) * (r + 1)
    decreases t
  {
    if t < 4 then (if t == 0 then 0 else 1)
    else
      var h := 2 * FloorSqrt(t / 4);
      SqrtStep(t, h);
      if (h + 1) * (h + 1) <= t then h + 1 else h
  }

  /** With `h = 2 * FloorSqrt(t / 4)`, the root of `t` is `h` or `h + 1`. */
  lemma SqrtStep(t: nat, h: nat)
    requires h % 2 == 0 && (h / 2) * (h / 2) <= t / 4 < (h / 2 + 1) * (h / 2 + 1)
    ensures h * h <= t < (h + 2) * (h + 2)
  {
    var s := h / 2;
    assert h * h == 4 * (s * s);
    assert (h + 2) * (h + 2) == 4 * ((s + 1) * (s + 1));
  }

  /**
   * `(int)(n * 8.0 / 6.0) + HeaderSizePack`: the number of six-bit units the
   * header and `n` bytes of data need, estimated as `floor(4n / 3) + 128`.
   */
  function TotalSize(n: nat): (t: int)
    ensures 3 * (t - HeaderSizePack) <= 4 * n < 3 * (t - HeaderSizePack) + 3
  {
    n * 8 / 6 + HeaderSizePack
  }

  /**
   * `GetOptimalSize`: a width and height whose area exceeds `totalSize`.
   * When the least such square has a side no longer than the bitmap's
   * shorter bound it is chosen; otherwise the shorter side is that bound and
   * the longer the least length that makes the area exceed `totalSize`.
   * The `long` sums in the source cannot overflow here, and the cast back to
   * `int` is exact under the bound on `totalSize`.
   */
  function GetOptimalSize(maxWidth: int, maxHeight: int, totalSize: int): (size: (int, int))
    requires 1 <= maxWidth && 1 <= maxHeight
    requires 0 <= totalSize && totalSize + Min(maxWidth, maxHeight) <= 0x7FFF_FFFF
    ensures size.0 >= 1 && size.1 >= 1 && size.0 * size.1 > totalSize
    ensures Min(size.0, size.1) <= Min(maxWidth, maxHeight)
  {
    var minSide := Min(maxWidth, maxHeight);
    var square := FloorSqrt(totalSize) + 1;
    if square <= minSide then
      (square, square)
    else
      var secondSide := (totalSize + (minSide - totalSize % minSide)) / minSide;
      StripArea(totalSize, minSide);
      assert secondSide == totalSize / minSide + 1;
      assert secondSide >= 1 && secondSide * minSide > totalSize && minSide * secondSide > totalSize;
      if maxHeight == minSide then (secondSide, minSide) else (minSide, secondSide)
  }

  /** `t + (m - t % m)` is the next multiple of `m` after `t`: `(t / m + 1) * m`. */
  lemma StripArea(t: nat, m: int)
    requires m >= 1
    ensures (t + (m - t % m)) / m == t / m + 1 && t / m >= 0
    ensures (t / m + 1) * m > t >= (t / m) * m && m * (t / m + 1) > t
  {
    var q, r := t / m, t % m;
    assert t == q * m + r;
    assert (q + 1) * m == q * m + m;
    DivUnique(t + (m - r), m, q + 1, 0);
  }

  /** The quotient and remainder of `x` by `m` are the only such pair. */
  lemma DivUnique(x: int, m: int, q: int, r: int)
    requires m >= 1 && 0 <= r < m && x == q * m + r
    ensures x / m == q && x % m == r
  {
    var q', r' := x / m, x % m;
    assert x == q' * m + r';
    assert (q - q') * m == r' - r;
    if q > q' {
      MulLe(1, q - q', m);
    } else if q < q' {
      MulLe(1, q' - q, m);
    }
  }

  /**
   * The square is the least square whose area exceeds `totalSize`; it is
   * chosen exactly when its side is at most the shorter bound.
   */
  lemma OptimalSquare(maxWidth: int, maxHeight: int, totalSize: int)
    requires 1 <= maxWidth && 1 <= maxHeight
    requires 0 <= totalSize && totalSize + Min(maxWidth, maxHeight) <= 0x7FFF_FFFF
    ensures var s := FloorSqrt(totalSize) + 1;
      && s * s > totalSize && (s - 1) * (s - 1) <= totalSize
      && (s <= Min(maxWidth, maxHeight) <==> GetOptimalSize(maxWidth, maxHeight, totalSize) == (s, s))
  {
    var s := FloorSqrt(totalSize) + 1;
    var m := Min(maxWidth, maxHeight);
    if s > m {
      StripArea(totalSize, m);
      var size := GetOptimalSize(maxWidth, maxHeight, totalSize);
      assert size.0 == m || size.1 == m;
    }
  }

  /**
   * Past the square: the shorter side is the shorter bound, laid along the
   * height when that is the shorter bound, and the longer side is the least
   * length that makes the area exceed `totalSize`.
   */
  lemma OptimalStrip(maxWidth: int, maxHeight: int, totalSize: int)
    requires 1 <= maxWidth && 1 <= maxHeight
    requires 0 <= totalSize && totalSize + Min(maxWidth, maxHeight) <= 0x7FFF_FFFF
    requires FloorSqrt(totalSize) + 1 > Min(maxWidth, maxHeight)
    ensures var m := Min(maxWidth, maxHeight);
      var size := GetOptimalSize(maxWidth, maxHeight, totalSize);
      var long := if maxHeight == m then size.0 else size.1;
      && (if maxHeight == m then size.1 == m else size.0 == m)
      && long * m > totalSize && (long - 1) * m <= totalSize
  {
    StripArea(totalSize, Min(maxWidth, maxHeight));
  }

  /** The chosen size lies within the bounds exactly when `totalSize` is less than their area. */
  lemma {:induction false} WithinBounds(maxWidth: int, maxHeight: int, totalSize: int)
    requires 1 <= maxWidth && 1 <= maxHeight
    requires 0 <= totalSize && totalSize + Min(maxWidth, maxHeight) <= 0x7FFF_FFFF
    ensures var size := GetOptimalSize(maxWidth, maxHeight, totalSize);
      size.0 <= maxWidth && size.1 <= maxHeight <==> totalSize < maxWidth * maxHeight
  {
    var m := Min(maxWidth, maxHeight);
    var s := FloorSqrt(totalSize) + 1;
    var size := GetOptimalSize(maxWidth, maxHeight, totalSize);
    if s <= m {
      assert size == (s, s);
      MulLe(s, maxWidth, s);
      MulLe(s, maxHeight, maxWidth);
    } else {
      StripArea(totalSize, m);
      var q := totalSize / m;
      if maxHeight == m {
        assert size == (q + 1, m);
        StripFits(totalSize, m, q, maxWidth);
        assert m * maxWidth == maxWidth * maxHeight;
      } else {
        assert size == (m, q + 1);
        StripFits(totalSize, m, q, maxHeight);
      }
    }
  }

  /** A strip `m` wide and `q + 1` long fits a bound exactly when `t` is below `m * bound`. */
  lemma StripFits(t: int, m: int, q: int, bound: int)
    requires m >= 1 && bound >= 0 && q >= 0 && (q + 1) * m > t >= q * m
    ensures q + 1 <= bound <==> t < m * bound
  {
    if q + 1 <= bound {
      MulLe(q + 1, bound, m);
    } else {
      MulLe(bound, q, m);
    }
  }

  lemma MulLe(p: int, q: int, w: int)
    requires 0 <= p <= q && 0 <= w
    ensures p * w <= q * w && w * p <= w * q
  {
    assert q * w - p * w == (q - p) * w;
  }

  /**
   * `Width += Width % DuplCoeef`, as written: the result is a multiple of 4
   * only when the width already was one or was 2 more than one.
   */
  function AdjustWidth(width: int): (r: int)
    requires width >= 0
    ensures r % DuplCoeef == 0 <==> width % DuplCoeef == 0 || width % DuplCoeef == 2
    ensures width % 2 == 1 ==> r % DuplCoeef == 2
  {
    width + width % DuplCoeef
  }

  /** The width rounded up to the next multiple of 4, as the fill loop needs. */
  function PadWidth(width: int): (r: int)
    ensures r % DuplCoeef == 0 && width <= r < width + DuplCoeef
  {
    width + (DuplCoeef - width % DuplCoeef) % DuplCoeef
  }
}
