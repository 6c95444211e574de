/**
 * The pixel helpers of the icon generator: a square RGBA image stored row by row, four bytes
 * per pixel, written in place by `set` (one pixel, ignored outside the image) and `fill`
 * (a rectangle, one `set` per pixel), and the `px` cells of the pixel-art letters.
 */
module Icons {

  /** One byte of the image buffer. */
  type Byte = x: int | 0 <= x < 256

  datatype Rgba = Rgba(r: Byte, g: Byte, b: Byte, a: Byte)

  const Black: Rgba := Rgba(0, 0, 0, 255)

  /** The colour of the letters. */
  const Gold: Rgba := Rgba(255, 213, 94, 255)

  /** Byte `k` of a pixel: red, green, blue, alpha. */
  function Channel(c: Rgba, k: int): Byte {
    if k == 0 then c.r else if k == 1 then c.g else if k == 2 then c.b else c.a
  }

  /** The column of the pixel that byte `i` belongs to. */
  function PixelX(size: nat, i: nat): nat {
    if size == 0 then 0 else (i / 4) % size
  }

  /** The row of the pixel that byte `i` belongs to. */
  function PixelY(size: nat, i: nat): nat {
    if size == 0 then 0 else (i / 4) / size
  }

  predicate InRect(x: int, y: int, x0: int, y0: int, w: int, h: int) {
    x0 <= x < x0 + w && y0 <= y < y0 + h
  }

  /**
   * The buffer `d` of a `size`×`size` image with every pixel of [x0, x0+w) × [y0, y0+h) set
   * to `c` and every other byte as it was.
   */
  function Filled(d: seq<Byte>, size: nat, x0: int, y0: int, w: int, h: int, c: Rgba): (r: seq<Byte>)
    ensures |r| == |d|
  {
    seq(|d|, i requires 0 <= i < |d| =>
      if InRect(PixelX(size, i), PixelY(size, i), x0, y0, w, h) then Channel(c, i % 4) else d[i])
  }

  // ---------------------------------------------------------------------------------------
  // Byte offsets and pixels
  // ---------------------------------------------------------------------------------------

  lemma MulLess(a: nat, b: nat, n: nat)
    requires a < n && b < n
    ensures n * b + a < n * n
  {
    assert n * b + a < n * b + n == n * (b + 1) <= n * n;
  }

  lemma {:induction false} MulAtLeast(n: nat, k: int)
    requires k >= 1
    ensures n * k >= n
    decreases k
  {
    if k > 1 {
      MulAtLeast(n, k - 1);
      assert n * k == n * (k - 1) + n;
    }
  }

  /** The only multiple of `n` strictly between -n and n is 0. */
  lemma MulZeroBand(n: int, k: int, r: int)
    requires n > 0 && n * k == r && -n < r < n
    ensures k == 0
  {
    if k >= 1 {
      MulAtLeast(n, k);
    }
  }

  /** Every byte of the buffer belongs to a pixel inside the image, at offset `4·(size·y + x) + k`. */
  lemma Decompose(size: nat, i: nat)
    requires i < 4 * size * size
    ensures size > 0
    ensures PixelX(size, i) < size && PixelY(size, i) < size
    ensures i == 4 * (size * PixelY(size, i) + PixelX(size, i)) + i % 4
  {
    var p := i / 4;
    assert i == 4 * p + i % 4;
    assert p == size * (p / size) + p % size;
  }

  /** The four bytes at `4·(size·y + x)` are exactly the bytes of pixel (x, y). */
  lemma PixelOfOffset(size: nat, x: nat, y: nat, k: nat)
    requires x < size && y < size && k < 4
    ensures 4 * (size * y + x) + k < 4 * size * size
    ensures PixelX(size, 4 * (size * y + x) + k) == x && PixelY(size, 4 * (size * y + x) + k) == y
    ensures (4 * (size * y + x) + k) % 4 == k
  {
    MulLess(x, y, size);
    var i := 4 * (size * y + x) + k;
    var p := size * y + x;
    assert i / 4 == p && i % 4 == k;
    assert p == size * (p / size) + p % size;
    MulZeroBand(size, y - p / size, p % size - x);
  }

  /** A byte belongs to pixel (x, y) exactly when it lies among that pixel's four bytes. */
  lemma PixelBytes(size: nat, x: nat, y: nat, i: nat)
    requires x < size && y < size && i < 4 * size * size
    ensures PixelX(size, i) == x && PixelY(size, i) == y <==>
      4 * (size * y + x) <= i < 4 * (size * y + x) + 4
  {
    Decompose(size, i);
    if 4 * (size * y + x) <= i < 4 * (size * y + x) + 4 {
      PixelOfOffset(size, x, y, i - 4 * (size * y + x));
    }
  }

  // ---------------------------------------------------------------------------------------
  // Properties of `Filled`
  // ---------------------------------------------------------------------------------------

  /** A rectangle with no width or no height changes nothing (`fill` with w ≤ 0 or h ≤ 0). */
  lemma FilledEmpty(d: seq<Byte>, size: nat, x0: int, y0: int, w: int, h: int, c: Rgba)
    requires w <= 0 || h <= 0
    ensures Filled(d, size, x0, y0, w, h, c) == d
  {
  }

  /** A one-pixel rectangle outside the image changes nothing (`set` out of range). */
  lemma FilledOutside(d: seq<Byte>, size: nat, x: int, y: int, c: Rgba)
    requires |d| == 4 * size * size
    requires x < 0 || y < 0 || x >= size || y >= size
    ensures Filled(d, size, x, y, 1, 1, c) == d
  {
    forall i | 0 <= i < |d| ensures Filled(d, size, x, y, 1, 1, c)[i] == d[i] {
      Decompose(size, i);
    }
  }

  /** Painting one more pixel at the right end of a row segment extends the segment. */
  lemma FilledExtendRow(d: seq<Byte>, size: nat, x0: int, y: int, n: nat, c: Rgba)
    ensures Filled(Filled(d, size, x0, y, n, 1, c), size, x0 + n, y, 1, 1, c) == Filled(d, size, x0, y, n + 1, 1, c)
  {
  }

  /** Painting one more full row below a block of rows extends the block. */
  lemma FilledExtendRows(d: seq<Byte>, size: nat, x0: int, y0: int, w: int, k: nat, c: Rgba)
    ensures Filled(Filled(d, size, x0, y0, w, k, c), size, x0, y0 + k, w, 1, c) == Filled(d, size, x0, y0, w, k + 1, c)
  {
  }

  /** Filling the whole image paints every pixel. */
  lemma FilledWhole(d: seq<Byte>, size: nat, c: Rgba)
    requires |d| == 4 * size * size
    ensures forall i :: 0 <= i < |d| ==> Filled(d, size, 0, 0, size, size, c)[i] == Channel(c, i % 4)
  {
    forall i | 0 <= i < |d| ensures Filled(d, size, 0, 0, size, size, c)[i] == Channel(c, i % 4) {
      Decompose(size, i);
    }
  }

  /** Filling a rectangle changes exactly the bytes of its pixels inside the image. */
  lemma FilledChanges(d: seq<Byte>, size: nat, x0: int, y0: int, w: int, h: int, c: Rgba, x: nat, y: nat, k: nat)
    requires |d| == 4 * size * size && x < size && y < size && k < 4
    ensures var i := 4 * (size * y + x) + k;
      i < |d| &&
      Filled(d, size, x0, y0, w, h, c)[i] == if InRect(x, y, x0, y0, w, h) then Channel(c, k) else d[i]
  {
    PixelOfOffset(size, x, y, k);
  }

  /** `Math.max(4, Math.floor(size / 64))`: the side of one letter cell, never below 4. */
  function Grid(size: nat): (g: nat)
    ensures g >= 4 && g >= size / 64
    ensures size >= 256 ==> g == size / 64
  {
    if size / 64 > 4 then size / 64 else 4
  }

  // ---------------------------------------------------------------------------------------
  // The buffer
  // ---------------------------------------------------------------------------------------

  /** `png.data` of a `size`×`size` image. */
  class Canvas {
    const size: nat
    const data: array<Byte>

    predicate Valid() {
      data.Length == 4 * size * size
    }

    /** A new image: every byte 0. */
    constructor (size: nat)
      ensures Valid() && this.size == size && fresh(data)
      ensures forall i :: 0 <= i < data.Length ==> data[i] == 0
    {
      this.size := size;
      data := new Byte[4 * size * size](_ => 0);
    }

    /** `set(x, y, r, g, b, a)`: pixel (x, y) becomes `c`; outside the image nothing changes. */
    method Set(x: int, y: int, c: Rgba)
      requires Valid()
      modifies data
      ensures data[..] == Filled(old(data[..]), size, x, y, 1, 1, c)
    {
      if x < 0 || y < 0 || x >= size || y >= size {
        FilledOutside(data[..], size, x, y, c);
        return;
      }
      ghost var before := data[..];
      PixelOfOffset(size, x, y, 3);
      var idx := 4 * (size * y + x);
      data[idx] := c.r;
      data[idx + 1] := c.g;
      data[idx + 2] := c.b;
      data[idx + 3] := c.a;
      forall i | 0 <= i < data.Length ensures data[i] == Filled(before, size, x, y, 1, 1, c)[i] {
        PixelBytes(size, x, y, i);
        if idx <= i < idx + 4 {
          PixelOfOffset(size, x, y, i - idx);
        }
      }
    }

    /** `fill(x0, y0, w, h, r, g, b, a)`: every pixel of the rectangle inside the image becomes `c`. */
    method Fill(x0: int, y0: int, w: int, h: int, c: Rgba)
      requires Valid()
      modifies data
      ensures data[..] == Filled(old(data[..]), size, x0, y0, w, h, c)
    {
      ghost var d := data[..];
      var y := y0;
      while y < y0 + h
        invariant y == y0 || y0 < y <= y0 + h
        invariant data[..] == Filled(d, size, x0, y0, w, y - y0, c)
      {
        var x := x0;
        while x < x0 + w
          invariant x == x0 || x0 < x <= x0 + w
          invariant data[..] == Filled(Filled(d, size, x0, y0, w, y - y0, c), size, x0, y, x - x0, 1, c)
        {
          Set(x, y, c);
          FilledExtendRow(Filled(d, size, x0, y0, w, y - y0, c), size, x0, y, x - x0, c);
          x := x + 1;
        }
        if w <= 0 {
          FilledEmpty(Filled(d, size, x0, y0, w, y - y0, c), size, x0, y, x - x0, 1, c);
          FilledEmpty(d, size, x0, y0, w, y - y0 + 1, c);
          FilledEmpty(d, size, x0, y0, w, y - y0, c);
        }
        FilledExtendRows(d, size, x0, y0, w, y - y0, c);
        y := y + 1;
      }
      if h <= 0 {
        FilledEmpty(d, size, x0, y0, w, 0, c);
        FilledEmpty(d, size, x0, y0, w, h, c);
      }
    }

    /** The background: `fill(0, 0, size, size, 0, 0, 0, 255)` leaves every pixel opaque black. */
    method DrawBackground()
      requires Valid()
      modifies data
      ensures forall i :: 0 <= i < data.Length ==> data[i] == Channel(Black, i % 4)
    {
      ghost var d := data[..];
      Fill(0, 0, size, size, Black);
      FilledWhole(d, size, Black);
      assert forall i :: 0 <= i < data.Length ==> data[i] == data[..][i];
    }

    /**
     * `px(x, y, w, h)`: the letter cells [x, x+w) × [y, y+h) of the grid whose cells are
     * `grid` pixels wide and which starts at (gx, gy), painted gold.
     */
    method Px(gx: int, gy: int, grid: int, x: int, y: int, w: int, h: int)
      requires Valid()
      modifies data
      ensures data[..] == Filled(old(data[..]), size, gx + x * grid, gy + y * grid, w * grid, h * grid, Gold)
    {
      Fill(gx + x * grid, gy + y * grid, w * grid, h * grid, Gold);
    }
  }

  /**
   * One letter cell `px(x, y)` paints exactly the `grid`×`grid` block at (gx + x·grid,
   * gy + y·grid): a pixel of the image turns gold when it lies in that block and keeps its
   * colour otherwise.
   */
  lemma PxCell(d: seq<Byte>, size: nat, gx: int, gy: int, grid: int, x: int, y: int, px: nat, py: nat, k: nat)
    requires |d| == 4 * size * size && px < size && py < size && k < 4
    ensures var i := 4 * (size * py + px) + k;
      i < |d| &&
      Filled(d, size, gx + x * grid, gy + y * grid, 1 * grid, 1 * grid, Gold)[i] ==
        if gx + x * grid <= px < gx + x * grid + grid && gy + y * grid <= py < gy + y * grid + grid
        then Channel(Gold, k) else d[i]
  {
    FilledChanges(d, size, gx + x * grid, gy + y * grid, 1 * grid, 1 * grid, Gold, px, py, k);
  }
}
