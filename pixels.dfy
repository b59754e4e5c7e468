/** The completion step of `infer`: the network's 64 x 64 x 1 intensity grid is
    expanded into the flat RGBA buffer of an image, one pixel after another in
    row-major order, with the intensity in the red, green and blue channels and
    full opacity in the alpha channel. */
module Pixels {

  /** Side length of the glyph image, in pixels. */
  const ImageSize := 64

  /** Alpha value of a fully opaque pixel. */
  const Opaque := 255

  /** The RGBA bytes of a row-major grid of intensities, four per cell. */
  function ExpandRgba(grid: seq<int>): (rgba: seq<int>)
    ensures |rgba| == 4 * |grid|
  {
    if grid == [] then [] else [grid[0], grid[0], grid[0], Opaque] + ExpandRgba(grid[1..])
  }

  /** The intensities read back from an RGBA buffer: the red channel of each pixel. */
  function RedChannel(rgba: seq<int>): (grid: seq<int>)
    requires |rgba| % 4 == 0
    ensures 4 * |grid| == |rgba|
  {
    if rgba == [] then [] else [rgba[0]] + RedChannel(rgba[4..])
  }

  /** Cell k of the grid lands in slots 4k, 4k+1, 4k+2, with 255 in slot 4k+3. */
  lemma {:induction false} ExpandRgbaAt(grid: seq<int>, k: int)
    requires 0 <= k < |grid|
    ensures ExpandRgba(grid)[4 * k] == grid[k]
    ensures ExpandRgba(grid)[4 * k + 1] == grid[k]
    ensures ExpandRgba(grid)[4 * k + 2] == grid[k]
    ensures ExpandRgba(grid)[4 * k + 3] == Opaque
  {
    if k > 0 {
      ExpandRgbaAt(grid[1..], k - 1);
    }
  }

  /** The four RGBA slots of pixel k of a buffer. */
  function Pixel(rgba: seq<int>, k: nat): (p: seq<int>)
    requires 4 * k + 4 <= |rgba|
    ensures |p| == 4 && p[0] == rgba[4 * k] && p[3] == rgba[4 * k + 3]
  {
    rgba[4 * k..4 * k + 4]
  }

  /** Pixel k of the expansion is cell k's intensity three times, then 255. */
  lemma {:induction false} PixelOfExpand(grid: seq<int>, k: nat)
    requires k < |grid|
    ensures Pixel(ExpandRgba(grid), k) == [grid[k], grid[k], grid[k], Opaque]
  {
    var rgba := ExpandRgba(grid);
    ExpandRgbaAt(grid, k);
    var v := grid[k];
    var p := rgba[4 * k..4 * k + 4];
    assert p[0] == v && p[1] == v && p[2] == v && p[3] == Opaque;
    assert p == [v, v, v, Opaque];
  }

  /** Every pixel of the expansion is gray and opaque: its cell's intensity in
      red, green and blue, and 255 in alpha. */
  lemma {:induction false} ExpandRgbaPixels(grid: seq<int>)
    ensures forall k :: 0 <= k < |grid| ==>
              Pixel(ExpandRgba(grid), k) == [grid[k], grid[k], grid[k], Opaque]
  {
    forall k | 0 <= k < |grid| {
      PixelOfExpand(grid, k);
    }
  }

  /** Expanding a grid cell by cell: one more cell adds one more pixel at the end. */
  lemma {:induction false} ExpandRgbaSnoc(grid: seq<int>, value: int)
    ensures ExpandRgba(grid + [value]) == ExpandRgba(grid) + [value, value, value, Opaque]
  {
    if grid != [] {
      assert (grid + [value])[1..] == grid[1..] + [value];
      ExpandRgbaSnoc(grid[1..], value);
    }
  }

  /** Reading the red channel back gives the grid: the expansion loses nothing. */
  lemma {:induction false} RedChannelOfExpand(grid: seq<int>)
    ensures RedChannel(ExpandRgba(grid)) == grid
  {
    if grid != [] {
      var rgba := ExpandRgba(grid);
      assert rgba[4..] == ExpandRgba(grid[1..]);
      RedChannelOfExpand(grid[1..]);
    }
  }

  /** The slots 0 .. n-1 in increasing order. */
  function Slots(n: nat): (s: seq<nat>)
    ensures |s| == n && forall k :: 0 <= k < n ==> s[k] == k
  {
    seq(n, k requires 0 <= k => k)
  }

  /** Row i of a rows x cols grid ends where row i + 1 starts, inside the grid. */
  lemma NextRowStart(i: nat, rows: nat, cols: nat)
    requires i < rows
    ensures i * cols + cols == (i + 1) * cols <= rows * cols
  {
  }

  /** Writes one pixel at `offset` and leaves the rest of the buffer alone. */
  method WritePixel(data: array<int>, offset: nat, value: int)
    requires offset + 4 <= data.Length
    modifies data
    ensures data[..offset + 4] == old(data[..offset]) + [value, value, value, Opaque]
    ensures data[offset + 4..] == old(data[offset + 4..])
  {
    data[offset] := value;
    data[offset + 1] := value;
    data[offset + 2] := value;
    data[offset + 3] := 255;
  }

  /** The nested loop of the completion handler. `d` is the network output
      viewed as a rows x cols x 1 tensor, so `d.get(i, j, 0)` is `d[i * cols + j]`;
      `data` is the image buffer. `written` logs every slot the loop writes to,
      in order, and `pixelOffset` is the running write position afterwards. */
  method FillPixels(d: seq<int>, rows: nat, cols: nat, data: array<int>)
      returns (pixelOffset: nat, ghost written: seq<nat>)
    requires |d| == rows * cols
    requires data.Length == 4 * (rows * cols)
    modifies data
    ensures pixelOffset == 4 * (rows * cols) == data.Length
    ensures data[..] == ExpandRgba(d)
    ensures written == Slots(data.Length)
  {
    pixelOffset := 0;
    written := [];
    ghost var cell := 0;
    for i := 0 to rows
      invariant cell == i * cols <= rows * cols
      invariant pixelOffset == 4 * cell
      invariant data[..pixelOffset] == ExpandRgba(d[..cell])
      invariant written == Slots(pixelOffset)
    {
      NextRowStart(i, rows, cols);
      for j := 0 to cols
        invariant cell == i * cols + j
        invariant pixelOffset == 4 * cell
        invariant data[..pixelOffset] == ExpandRgba(d[..cell])
        invariant written == Slots(pixelOffset)
      {
        var value := d[i * cols + j];
        WritePixel(data, pixelOffset, value);
        assert d[..cell + 1] == d[..cell] + [value];
        ExpandRgbaSnoc(d[..cell], value);
        written := written + [pixelOffset, pixelOffset + 1, pixelOffset + 2, pixelOffset + 3];
        pixelOffset := pixelOffset + 4;
        cell := cell + 1;
      }
    }
    assert d[..cell] == d;
    assert data[..] == data[..pixelOffset];
  }
}
