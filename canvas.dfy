/**
 * The fill loop of `Main`: every colour is set on `DuplCoeef` = 4 adjacent
 * pixels of the bitmap, left to right, and the cursor moves to the next row
 * only when `x == Width` after a colour. `bitmap[x, y]` is the pixel
 * `SetPixel(x, y, ...)` sets: the first index runs over the width, the
 * second over the height.
 */
module Canvas {
  import opened Base
  import opened Colors
  import opened Layout

  /** Pixel (a, b) comes before the cursor (x, y) in row-major order. */
  predicate Before(a: int, b: int, x: int, y: int) {
    b < y || (b == y && a < x)
  }

  /**
   * The fill of `n` colours on a `width` x `height` bitmap sets every pixel
   * without leaving the bitmap: with a width that is a multiple of 4 the
   * rows wrap and the pixels must fit in the bitmap; otherwise the cursor
   * never wraps and all pixels must fit in the first row.
   */
  predicate Fits(n: int, width: int, height: int) {
    if width % DuplCoeef == 0 then DuplCoeef * n <= width * height else DuplCoeef * n <= width
  }

  /**
   * Pixel `p` in row-major order shows colour `p / 4` up to the last colour,
   * and `background` after it.
   */
  ghost predicate Shows(bitmap: array2<Rgb>, colors: seq<Rgb>, background: Rgb)
    reads bitmap
  {
    forall a, b :: 0 <= a < bitmap.Length0 && 0 <= b < bitmap.Length1 ==>
      bitmap[a, b] ==
        if b * bitmap.Length0 + a < DuplCoeef * |colors|
        then colors[(b * bitmap.Length0 + a) / DuplCoeef]
        else background
  }

  /**
   * `new Bitmap(width, height)`, all black, followed by the fill loop, when
   * the colours fit a bitmap whose width is a multiple of 4.
   */
  method Paint(colors: seq<Rgb>, width: int, height: int, background: Rgb) returns (bitmap: array2<Rgb>)
    requires width >= 1 && height >= 1 && width % DuplCoeef == 0 && Fits(|colors|, width, height)
    ensures fresh(bitmap) && bitmap.Length0 == width && bitmap.Length1 == height
    ensures Shows(bitmap, colors, background)
  {
    bitmap := new Rgb[width, height]((a, b) => background);
    var o := Fill(bitmap, colors, background);
  }

  /**
   * The pixels before the cursor (x, y) show their colours, and they are the
   * first `p` pixels in row-major order; the others show `background`.
   */
  ghost predicate Painted(bitmap: array2<Rgb>, colors: seq<Rgb>, background: Rgb, x: int, y: int, p: int)
    reads bitmap
  {
    p <= DuplCoeef * |colors| &&
    forall a, b :: 0 <= a < bitmap.Length0 && 0 <= b < bitmap.Length1 ==>
      PixelPainted(bitmap, colors, background, x, y, p, a, b)
  }

  /** `Painted` at pixel (a, b). */
  ghost predicate PixelPainted(bitmap: array2<Rgb>, colors: seq<Rgb>, background: Rgb, x: int, y: int, p: int, a: int, b: int)
    requires 0 <= a < bitmap.Length0 && 0 <= b < bitmap.Length1
    reads bitmap
  {
    if Before(a, b, x, y)
    then 0 <= b * bitmap.Length0 + a < p && (b * bitmap.Length0 + a) / DuplCoeef < |colors|
      && bitmap[a, b] == colors[(b * bitmap.Length0 + a) / DuplCoeef]
    else bitmap[a, b] == background
  }

  /** A bitmap that shows `background` everywhere is painted up to the origin. */
  lemma Blank(bitmap: array2<Rgb>, colors: seq<Rgb>, background: Rgb)
    requires forall a, b :: 0 <= a < bitmap.Length0 && 0 <= b < bitmap.Length1 ==> bitmap[a, b] == background
    ensures Painted(bitmap, colors, background, 0, 0, 0)
  {
    forall a, b | 0 <= a < bitmap.Length0 && 0 <= b < bitmap.Length1
      ensures PixelPainted(bitmap, colors, background, 0, 0, 0, a, b)
    {
      assert !Before(a, b, 0, 0);
    }
  }

  /**
   * The fill loop on a bitmap that shows `background` everywhere.
   * `SetPixel` outside the bitmap throws `ArgumentOutOfRangeException`,
   * which ends the loop; the pixels set before it stay set. On return,
   * pixel (a, b) holds colour `(b * width + a) / 4` when the fill reached
   * it, and `background` otherwise.
   */
  method Fill(bitmap: array2<Rgb>, colors: seq<Rgb>, ghost background: Rgb) returns (o: Outcome)
    requires bitmap.Length0 >= 1 && bitmap.Length1 >= 1
    requires forall a, b :: 0 <= a < bitmap.Length0 && 0 <= b < bitmap.Length1 ==> bitmap[a, b] == background
    modifies bitmap
    ensures o == if Fits(|colors|, bitmap.Length0, bitmap.Length1) then Done else Thrown(ArgumentOutOfRange)
    ensures forall a, b :: 0 <= a < bitmap.Length0 && 0 <= b < bitmap.Length1 ==>
      bitmap[a, b] ==
        if (bitmap.Length0 % DuplCoeef == 0 || b == 0) && b * bitmap.Length0 + a < DuplCoeef * |colors|
        then colors[(b * bitmap.Length0 + a) / DuplCoeef]
        else background
  {
    var width, height := bitmap.Length0, bitmap.Length1;
    var x, y := 0, 0;
    var k := 0;
    Blank(bitmap, colors, background);
    while k < |colors|
      invariant 0 <= k <= |colors|
      invariant 0 <= x < width && 0 <= y && y * width + x == DuplCoeef * k
      invariant y < height || (y == height && x == 0)
      invariant width % DuplCoeef != 0 ==> y == 0
      invariant Painted(bitmap, colors, background, x, y, DuplCoeef * k)
    {
      RowStart(x, y, width, k);
      var count := SetColor(bitmap, colors, k, x, y, background);
      x := x + count;
      if count < DuplCoeef {
        // SetPixel throws
        Stopped(width, height, |colors|, x, y, k, count);
        Reached(bitmap, colors, background, x, y, DuplCoeef * k + count);
        return Thrown(ArgumentOutOfRange);
      }
      if x == width {
        Wrap(bitmap, colors, background, y, DuplCoeef * k + count);
        y := y + 1;
        x := 0;
      }
      k := k + 1;
    }
    Finished(width, height, |colors|, x, y);
    Reached(bitmap, colors, background, x, y, DuplCoeef * k);
    return Done;
  }

  /**
   * The inner `for` loop: colour `k` on the `DuplCoeef` pixels from the
   * cursor (x, y) rightwards. `SetPixel` throws at the first pixel outside
   * the bitmap; `count` is the number of pixels set before that.
   */
  method SetColor(bitmap: array2<Rgb>, colors: seq<Rgb>, k: int, x: int, y: int, ghost background: Rgb)
    returns (count: int)
    requires 0 <= k < |colors| && 0 <= x <= bitmap.Length0 && 0 <= y && y * bitmap.Length0 + x == DuplCoeef * k
    requires Painted(bitmap, colors, background, x, y, DuplCoeef * k)
    modifies bitmap
    ensures count == if y < bitmap.Length1 then Min(DuplCoeef, bitmap.Length0 - x) else 0
    ensures Painted(bitmap, colors, background, x + count, y, DuplCoeef * k + count)
  {
    count := 0;
    while count < DuplCoeef
      invariant 0 <= count <= DuplCoeef && x + count <= bitmap.Length0
      invariant count > 0 ==> y < bitmap.Length1
      invariant Painted(bitmap, colors, background, x + count, y, DuplCoeef * k + count)
    {
      if x + count >= bitmap.Length0 || y >= bitmap.Length1 {
        return;
      }
      SetPixel(bitmap, colors, k, x + count, y, DuplCoeef * k + count, background);
      count := count + 1;
    }
  }

  /**
   * `SetPixel(x, y, colors[k])` inside the bitmap, the cursor being pixel
   * `p` in row-major order: the painted pixels grow by that one.
   */
  method SetPixel(bitmap: array2<Rgb>, colors: seq<Rgb>, k: int, x: int, y: int, p: int, ghost background: Rgb)
    requires 0 <= k < |colors| && 0 <= x < bitmap.Length0 && 0 <= y < bitmap.Length1
    requires y * bitmap.Length0 + x == p && p / DuplCoeef == k
    requires Painted(bitmap, colors, background, x, y, p)
    modifies bitmap
    ensures Painted(bitmap, colors, background, x + 1, y, p + 1)
  {
    label Set:
    bitmap[x, y] := colors[k];
    ghost var x', p' := x + 1, p + 1;
    forall a, b | 0 <= a < bitmap.Length0 && 0 <= b < bitmap.Length1
      ensures PixelPainted(bitmap, colors, background, x', y, p', a, b)
    {
      if a == x && b == y {
        assert b * bitmap.Length0 + a == p;
      } else {
        assert old@Set(PixelPainted(bitmap, colors, background, x, y, p, a, b));
        assert bitmap[a, b] == old@Set(bitmap[a, b]);
      }
    }
  }

  /** Moving the cursor from the end of row `y` to the start of the next keeps the painted pixels. */
  lemma Wrap(bitmap: array2<Rgb>, colors: seq<Rgb>, background: Rgb, y: int, p: int)
    requires Painted(bitmap, colors, background, bitmap.Length0, y, p)
    ensures Painted(bitmap, colors, background, 0, y + 1, p)
  {
    var y' := y + 1;
    forall a, b | 0 <= a < bitmap.Length0 && 0 <= b < bitmap.Length1
      ensures PixelPainted(bitmap, colors, background, 0, y', p, a, b)
    {
      assert PixelPainted(bitmap, colors, background, bitmap.Length0, y, p, a, b);
      assert Before(a, b, 0, y + 1) == Before(a, b, bitmap.Length0, y);
    }
  }

  /**
   * When the pixels before the cursor are exactly those the fill reaches,
   * the painted bitmap shows colour `(b * width + a) / 4` on each reached
   * pixel and `background` elsewhere.
   */
  lemma Reached(bitmap: array2<Rgb>, colors: seq<Rgb>, background: Rgb, x: int, y: int, p: int)
    requires Painted(bitmap, colors, background, x, y, p)
    requires forall a, b :: 0 <= a < bitmap.Length0 && 0 <= b < bitmap.Length1 ==>
      (Before(a, b, x, y) <==>
        (bitmap.Length0 % DuplCoeef == 0 || b == 0) && b * bitmap.Length0 + a < DuplCoeef * |colors|)
    ensures forall a, b :: 0 <= a < bitmap.Length0 && 0 <= b < bitmap.Length1 ==>
      bitmap[a, b] ==
        if (bitmap.Length0 % DuplCoeef == 0 || b == 0) && b * bitmap.Length0 + a < DuplCoeef * |colors|
        then colors[(b * bitmap.Length0 + a) / DuplCoeef]
        else background
  {
    forall a, b | 0 <= a < bitmap.Length0 && 0 <= b < bitmap.Length1
      ensures bitmap[a, b] ==
        if (bitmap.Length0 % DuplCoeef == 0 || b == 0) && b * bitmap.Length0 + a < DuplCoeef * |colors|
        then colors[(b * bitmap.Length0 + a) / DuplCoeef]
        else background
    {
      assert PixelPainted(bitmap, colors, background, x, y, p, a, b);
    }
  }

  /**
   * The loop stopped at the cursor (x, y), with `i` of the pixels of colour
   * `k` set: the colours do not fit, and the pixels before the cursor are
   * exactly those the fill reaches.
   */
  lemma Stopped(width: int, height: int, n: int, x: int, y: int, k: int, i: int)
    requires width >= 1 && height >= 1
    requires 0 <= k < n && 0 <= i < DuplCoeef
    requires 0 <= x <= width && 0 <= y && y * width + x == DuplCoeef * k + i
    requires x >= width || y >= height
    requires x == width ==> y == 0 && width % DuplCoeef != 0
    requires y >= height ==> y == height && x == 0
    requires width % DuplCoeef != 0 ==> y == 0
    ensures !Fits(n, width, height)
    ensures forall a, b :: 0 <= a < width && 0 <= b < height ==>
      (Before(a, b, x, y) <==> (width % DuplCoeef == 0 || b == 0) && b * width + a < DuplCoeef * n)
  {
    forall a, b | 0 <= a < width && 0 <= b < height
      ensures Before(a, b, x, y) <==> (width % DuplCoeef == 0 || b == 0) && b * width + a < DuplCoeef * n
    {
      if y == height {
        PastRow(a, b, height, width);
      }
    }
  }

  /**
   * The loop ran through all `n` colours with the cursor at (x, y): they
   * fit, and the pixels before the cursor are exactly those the fill reaches.
   */
  lemma Finished(width: int, height: int, n: int, x: int, y: int)
    requires width >= 1 && height >= 1
    requires 0 <= x < width && 0 <= y && y * width + x == DuplCoeef * n
    requires y < height || (y == height && x == 0)
    requires width % DuplCoeef != 0 ==> y == 0
    ensures Fits(n, width, height)
    ensures forall a, b :: 0 <= a < width && 0 <= b < height ==>
      (Before(a, b, x, y) <==> (width % DuplCoeef == 0 || b == 0) && b * width + a < DuplCoeef * n)
  {
    if y < height {
      MulLe(y + 1, height, width);
    }
    forall a, b | 0 <= a < width && 0 <= b < height
      ensures Before(a, b, x, y) <==> b * width + a < DuplCoeef * n
    {
      RowMajor(a, b, x, y, width);
    }
  }

  /**
   * With a width that is a multiple of 4, a colour starts at least 4 pixels
   * before the row end; with any other width a colour never ends the row.
   */
  lemma RowStart(x: int, y: int, width: int, k: int)
    requires 0 <= x < width && 0 <= y && y * width + x == DuplCoeef * k
    requires width % DuplCoeef != 0 ==> y == 0
    ensures width % DuplCoeef == 0 ==> x + DuplCoeef <= width
    ensures x + DuplCoeef == width ==> width % DuplCoeef == 0
  {
    assert x % DuplCoeef == 0 by {
      if width % DuplCoeef == 0 {
        var m := width / DuplCoeef;
        assert y * width == DuplCoeef * (y * m);
      }
    }
  }

  /** Every pixel of the first `height` rows comes before row `height`. */
  lemma PastRow(a: int, b: int, height: int, width: int)
    requires 0 <= a < width && 0 <= b < height
    ensures b * width + a < height * width
  {
    MulLe(b + 1, height, width);
  }

  /** Row-major order: pixel (a, b) comes before the cursor (x, y) iff its index is smaller. */
  lemma RowMajor(a: int, b: int, x: int, y: int, width: int)
    requires 0 <= a < width && 0 <= b && 0 <= x <= width && 0 <= y
    ensures Before(a, b, x, y) <==> b * width + a < y * width + x
  {
    if b < y {
      MulLe(b + 1, y, width);
    } else if b > y {
      MulLe(y + 1, b, width);
    }
  }
}
