/**
 * Image views: an immutable view is an ordered list of pixel rows of equal
 * width with a crop box describing the active region; a mutable view is an
 * ordered list of disjoint row slices of a pixel buffer it writes into.
 */
module ImageViews {
  import opened Slices
  import opened Wrappers
  import opened Pixels

  /** One more than the largest `u32`. */
  const U32_LIMIT: nat := 0x1_0000_0000

  type U32 = x: nat | x < U32_LIMIT
  type NonZeroU32 = x: nat | 0 < x < U32_LIMIT witness 1

  /** Parameters of the region of an image a view works on. */
  datatype CropBox = CropBox(left: U32, top: U32, width: NonZeroU32, height: NonZeroU32)

  /**
   * The bounds `set_crop_box` and `crop` insist on before accepting a crop box
   * for a `width` x `height` image.
   */
  predicate CropFits(cropBox: CropBox, width: nat, height: nat) {
    cropBox.left < width && cropBox.top < height &&
    cropBox.left + cropBox.width <= width && cropBox.top + cropBox.height <= height
  }

  /** Pixel `(x, y)` lies inside a `width` x `height` image. */
  predicate InImage(x: nat, y: nat, width: nat, height: nat) {
    x < width && y < height
  }

  /**
   * The crop-box bounds hold exactly when every pixel the crop box covers lies
   * inside the image: a crop box is never empty, so its first and last pixels
   * bound it.
   */
  lemma CropFitsIffCovered(cropBox: CropBox, width: nat, height: nat)
    ensures CropFits(cropBox, width, height) <==>
      forall x, y | cropBox.left <= x < cropBox.left + cropBox.width &&
                    cropBox.top <= y < cropBox.top + cropBox.height :: InImage(x, y, width, height)
  {
    var right, bottom := cropBox.left + cropBox.width - 1, cropBox.top + cropBox.height - 1;
    if forall x, y | cropBox.left <= x < cropBox.left + cropBox.width &&
                     cropBox.top <= y < cropBox.top + cropBox.height :: InImage(x, y, width, height) {
      assert InImage(cropBox.left, cropBox.top, width, height);
      assert InImage(right, bottom, width, height);
    }
  }

  /** The crop box covering the whole image. */
  function FullFrame(width: NonZeroU32, height: NonZeroU32): (cropBox: CropBox)
    ensures CropFits(cropBox, width, height)
    ensures forall other: CropBox | CropFits(other, width, height) ::
      cropBox.left <= other.left && cropBox.top <= other.top &&
      other.left + other.width <= cropBox.left + cropBox.width &&
      other.top + other.height <= cropBox.top + cropBox.height
  {
    CropBox(0, 0, width, height)
  }

  /**
   * `pixels.chunks_exact(width).take(height)`: the rows of a `width` x `height`
   * image stored row after row, without padding, at the start of `pixels`.
   */
  function ChunkRows<P>(pixels: seq<P>, width: nat, height: nat): (rows: seq<seq<P>>)
    requires width > 0 && |pixels| >= width * height
    ensures |rows| == height
    ensures forall y | 0 <= y < height :: |rows[y]| == width
    ensures forall y | 0 <= y < height ::
      y * width + width <= |pixels| && rows[y] == pixels[y * width .. y * width + width]
  {
    var chunks := ChunksExact(pixels, width);
    ChunksCover(pixels, width, height);
    chunks[..height]
  }

  /** Generic immutable image view. */
  class ImageView<P> {
    const width: NonZeroU32
    const height: NonZeroU32
    var cropBox: CropBox
    const rows: seq<seq<P>>

    /** The row list fixed at construction: `height` rows of `width` pixels. */
    predicate WellShaped() {
      |rows| == height && forall y | 0 <= y < |rows| :: |rows[y]| == width
    }

    ghost predicate Valid()
      reads this
    {
      WellShaped() && CropFits(cropBox, width, height)
    }

    /** A view of the pixels read out of a byte buffer holding at least `width * height` of them. */
    constructor New(width: NonZeroU32, height: NonZeroU32, buffer: seq<uint8>, layout: Layout<P>)
      requires layout.size > 0
      requires width * height < U32_LIMIT
      requires |buffer| >= width * height * layout.size
      ensures Valid()
      ensures this.width == width && this.height == height
      ensures cropBox == FullFrame(width, height)
      ensures |AlignTo(buffer, layout)| >= width * height
      ensures rows == ChunkRows(AlignTo(buffer, layout), width, height)
    {
      AlignToCovers(buffer, layout, width * height);
      this.width := width;
      this.height := height;
      cropBox := FullFrame(width, height);
      rows := ChunkRows(AlignTo(buffer, layout), width, height);
    }

    /** A view of a pixel slice holding at least `width * height` pixels. */
    constructor FromPixels(width: NonZeroU32, height: NonZeroU32, pixels: seq<P>)
      requires width * height < U32_LIMIT
      requires |pixels| >= width * height
      ensures Valid()
      ensures this.width == width && this.height == height
      ensures cropBox == FullFrame(width, height)
      ensures rows == ChunkRows(pixels, width, height)
    {
      this.width := width;
      this.height := height;
      cropBox := FullFrame(width, height);
      rows := ChunkRows(pixels, width, height);
    }

    /**
     * The `From<ImageViewMut>` conversion: the same rows, now read-only, and
     * the crop box reset to the (possibly already cropped) full frame.
     */
    constructor FromMut(view: ImageViewMut<P>)
      requires view.Valid()
      ensures Valid()
      ensures width == view.width && height == view.height
      ensures rows == view.Contents()
      ensures cropBox == FullFrame(view.width, view.height)
    {
      width := view.width;
      height := view.height;
      cropBox := FullFrame(view.width, view.height);
      rows := view.Contents();
    }

    /** Replaces the crop box with one that lies inside the image. */
    method SetCropBox(cropBox: CropBox)
      requires Valid()
      requires CropFits(cropBox, width, height)
      modifies this
      ensures Valid()
      ensures this.cropBox == cropBox
    {
      this.cropBox := cropBox;
    }

    /**
     * `iter_4_rows(start_y, max_y)`: the rows from `start_y` up to
     * `min(max_y, height)` in groups of four; the rows left over are not yielded.
     */
    function Iter4Rows(startY: U32, maxY: U32): (groups: seq<seq<seq<P>>>)
      requires WellShaped()
      ensures var end := Min(maxY, height);
        |groups| == if startY <= end then (end - startY) / 4 else 0
      ensures forall k | 0 <= k < |groups| :: |groups[k]| == 4
      ensures forall k, i | 0 <= k < |groups| && 0 <= i < 4 ::
        startY + 4 * k + i < height && groups[k][i] == rows[startY + 4 * k + i]
    {
      var window := Window(rows, startY, Min(maxY, height));
      ChunkCount(window, 4);
      ChunksExact(window, 4)
    }

    /** `iter_2_rows(start_y, max_y)`: as `Iter4Rows`, in pairs. */
    function Iter2Rows(startY: U32, maxY: U32): (groups: seq<seq<seq<P>>>)
      requires WellShaped()
      ensures var end := Min(maxY, height);
        |groups| == if startY <= end then (end - startY) / 2 else 0
      ensures forall k | 0 <= k < |groups| :: |groups[k]| == 2
      ensures forall k, i | 0 <= k < |groups| && 0 <= i < 2 ::
        startY + 2 * k + i < height && groups[k][i] == rows[startY + 2 * k + i]
    {
      var window := Window(rows, startY, Min(maxY, height));
      ChunkCount(window, 2);
      ChunksExact(window, 2)
    }

    /** `iter_rows(start_y)`: the rows from `start_y` on, in order. */
    function IterRows(startY: U32): (r: seq<seq<P>>)
      requires WellShaped()
      ensures |r| == if startY <= height then height - startY else 0
      ensures forall i | 0 <= i < |r| :: startY + i < height && r[i] == rows[startY + i]
    {
      Window(rows, startY, |rows|)
    }

    /** `get_row(y)`: row `y`, if there is one. */
    function GetRow(y: U32): (r: Option<seq<P>>)
      requires WellShaped()
      ensures r.Some? <==> y < height
      ensures r.Some? ==> r.value == rows[y] && |r.value| == width
    {
      if y < |rows| then Some(rows[y]) else None
    }
  }

  /**
   * A `&mut [P]` row of a mutable view: the `len` pixels of the view's buffer
   * from index `start` on.
   */
  datatype RowSlice = RowSlice(start: nat, len: nat)

  /** Index in the buffer of pixel `x` of row `y`. */
  function Cell(rows: seq<RowSlice>, y: nat, x: nat): nat
    requires y < |rows|
  {
    rows[y].start + x
  }

  /**
   * `height` row slices of `width` pixels, inside a buffer of `bufferLength`
   * pixels, each ending before the next begins (no two overlap).
   */
  predicate RowsValid(rows: seq<RowSlice>, width: nat, height: nat, bufferLength: nat) {
    |rows| == height &&
    (forall y | 0 <= y < |rows| :: rows[y].len == width && rows[y].start + rows[y].len <= bufferLength) &&
    (forall y, y' | 0 <= y < y' < |rows| :: rows[y].start + rows[y].len <= rows[y'].start)
  }

  /** Whether buffer index `i` lies in one of the row slices. */
  predicate InRows(rows: seq<RowSlice>, i: nat) {
    exists y | 0 <= y < |rows| :: rows[y].start <= i < rows[y].start + rows[y].len
  }

  /**
   * `chunks_exact_mut(width).take(height)` over a buffer of `bufferLength`
   * pixels: row `y` is the slice starting at `y * width`.
   */
  function RowSlices(bufferLength: nat, width: nat, height: nat): (rows: seq<RowSlice>)
    requires width > 0 && bufferLength >= width * height
    ensures RowsValid(rows, width, height, bufferLength)
    ensures forall y | 0 <= y < height :: rows[y].start == y * width
  {
    var rows := seq(height, y requires 0 <= y < height => RowSlice(y * width, width));
    forall y | 0 <= y < height
      ensures y * width + width <= bufferLength
    {
      ChunkFits(bufferLength, width, height, y);
    }
    forall y, y' | 0 <= y < y' < height
      ensures y * width + width <= y' * width
    {
      MulMonotone(y + 1, y', width);
      MulSucc(y, width);
    }
    rows
  }

  /**
   * The rows `crop` keeps: rows `top .. top + height`, each narrowed to the
   * columns `left .. left + width`. Pixel `(i, j)` of the result is pixel
   * `(top + i, left + j)` of the original.
   */
  function CropRows(rows: seq<RowSlice>, cropBox: CropBox): (cropped: seq<RowSlice>)
    requires cropBox.top + cropBox.height <= |rows|
    ensures |cropped| == cropBox.height
    ensures forall i | 0 <= i < cropBox.height :: cropped[i].len == cropBox.width
    ensures forall i, j | 0 <= i < cropBox.height && 0 <= j < cropBox.width ::
      Cell(cropped, i, j) == Cell(rows, cropBox.top + i, cropBox.left + j)
  {
    var kept := rows[cropBox.top..][..cropBox.height];
    seq(cropBox.height, i requires 0 <= i < cropBox.height =>
      RowSlice(kept[i].start + cropBox.left, cropBox.width))
  }

  /**
   * Cropping valid rows with a crop box that fits gives valid rows: each kept
   * row stays inside its original row, so no write through the cropped view
   * reaches a pixel outside the rectangle.
   */
  lemma CropRowsValid(rows: seq<RowSlice>, width: nat, height: nat, bufferLength: nat, cropBox: CropBox)
    requires RowsValid(rows, width, height, bufferLength)
    requires CropFits(cropBox, width, height)
    ensures RowsValid(CropRows(rows, cropBox), cropBox.width, cropBox.height, bufferLength)
    ensures forall i | 0 <= i < cropBox.height ::
      rows[cropBox.top + i].start <= CropRows(rows, cropBox)[i].start &&
      CropRows(rows, cropBox)[i].start + cropBox.width <= rows[cropBox.top + i].start + width
  {
    var cropped := CropRows(rows, cropBox);
    forall i | 0 <= i < cropBox.height
      ensures cropped[i].start == rows[cropBox.top + i].start + cropBox.left
    {
      if cropBox.width > 0 {
        assert Cell(cropped, i, 0) == Cell(rows, cropBox.top + i, cropBox.left);
      }
    }
  }

  /** Generic mutable image view. */
  class ImageViewMut<P> {
    const width: NonZeroU32
    const height: NonZeroU32
    const buffer: array<P>
    const rows: seq<RowSlice>

    predicate Valid() {
      RowsValid(rows, width, height, buffer.Length)
    }

    /** The pixels of row `y`. */
    function RowPixels(y: nat): (row: seq<P>)
      requires Valid() && y < height
      reads buffer
      ensures |row| == width
    {
      buffer[rows[y].start .. rows[y].start + rows[y].len]
    }

    /** The pixels of all rows, in order. */
    function Contents(): (contents: seq<seq<P>>)
      requires Valid()
      reads buffer
      ensures |contents| == height
      ensures forall y | 0 <= y < height :: contents[y] == RowPixels(y)
    {
      seq(height, y requires 0 <= y < height reads buffer => RowPixels(y))
    }

    /** A view over rows already cut from `buffer`. */
    constructor OfRows(width: NonZeroU32, height: NonZeroU32, buffer: array<P>, rows: seq<RowSlice>)
      requires RowsValid(rows, width, height, buffer.Length)
      ensures Valid()
      ensures this.width == width && this.height == height && this.buffer == buffer && this.rows == rows
    {
      this.width := width;
      this.height := height;
      this.buffer := buffer;
      this.rows := rows;
    }

    /**
     * A view of the pixels read out of a byte buffer holding at least
     * `width * height` of them; the view writes into a new pixel array.
     */
    constructor New(width: NonZeroU32, height: NonZeroU32, bytes: array<uint8>, layout: Layout<P>)
      requires layout.size > 0
      requires width * height < U32_LIMIT
      requires bytes.Length >= width * height * layout.size
      ensures Valid() && fresh(buffer)
      ensures this.width == width && this.height == height
      ensures buffer[..] == AlignTo(bytes[..], layout)
      ensures buffer.Length >= width * height
      ensures rows == RowSlices(buffer.Length, width, height)
    {
      var pixels := AlignTo(bytes[..], layout);
      AlignToCovers(bytes[..], layout, width * height);
      var decoded := new P[|pixels|](i requires 0 <= i < |pixels| => pixels[i]);
      this.width := width;
      this.height := height;
      this.buffer := decoded;
      this.rows := RowSlices(decoded.Length, width, height);
      assert decoded[..] == pixels;
    }

    /** A view writing into a pixel array holding at least `width * height` pixels. */
    constructor FromPixels(width: NonZeroU32, height: NonZeroU32, pixels: array<P>)
      requires width * height < U32_LIMIT
      requires pixels.Length >= width * height
      ensures Valid()
      ensures this.width == width && this.height == height && buffer == pixels
      ensures rows == RowSlices(pixels.Length, width, height)
    {
      this.width := width;
      this.height := height;
      this.buffer := pixels;
      this.rows := RowSlices(pixels.Length, width, height);
    }

    /**
     * `iter_rows_mut`: every row, in order, each inside the buffer and none
     * overlapping another, so each can be written independently.
     */
    function IterRowsMut(): (slices: seq<RowSlice>)
      requires Valid()
      ensures RowsValid(slices, width, height, buffer.Length)
      ensures slices == rows
    {
      rows
    }

    /** `iter_4_rows_mut`: the rows in groups of four; the rows left over are not yielded. */
    function Iter4RowsMut(): (groups: seq<seq<RowSlice>>)
      requires Valid()
      ensures |groups| == height / 4
      ensures forall k | 0 <= k < |groups| :: |groups[k]| == 4
      ensures forall k, i | 0 <= k < |groups| && 0 <= i < 4 ::
        4 * k + i < height && groups[k][i] == rows[4 * k + i]
    {
      ChunkCount(rows, 4);
      ChunksExact(rows, 4)
    }

    /** `get_row_mut(y)`: row `y`, if there is one. */
    function GetRowMut(y: U32): (r: Option<RowSlice>)
      requires Valid()
      ensures r.Some? <==> y < height
      ensures r.Some? ==> r.value == rows[y] && r.value.start + width <= buffer.Length
    {
      if y < |rows| then Some(rows[y]) else None
    }

    /**
     * `crop`: a view over the same buffer with the rows of the crop box only,
     * each narrowed to the crop box's columns.
     */
    method Crop(cropBox: CropBox) returns (view: ImageViewMut<P>)
      requires Valid()
      requires CropFits(cropBox, width, height)
      ensures fresh(view) && view.Valid()
      ensures view.buffer == buffer
      ensures view.width == cropBox.width && view.height == cropBox.height
      ensures view.rows == CropRows(rows, cropBox)
    {
      CropRowsValid(rows, width, height, buffer.Length, cropBox);
      view := new ImageViewMut.OfRows(cropBox.width, cropBox.height, buffer, CropRows(rows, cropBox));
    }
  }

  /** Every pixel of a buffer of `Pixel<T, C, N>` values has its `count` components. */
  predicate PixelsHave<C>(buffer: array<seq<C>>, count: nat)
    reads buffer
  {
    AllPixelsHave(buffer[..], count)
  }

  /** The components of the `len` pixels of `buffer` from index `start` on, in memory order. */
  function SliceComponents<C>(buffer: array<seq<C>>, start: nat, len: nat, count: nat): (comps: seq<C>)
    requires start + len <= buffer.Length && PixelsHave(buffer, count)
    reads buffer
    ensures |comps| == len * count
  {
    var pixels := buffer[start .. start + len];
    assert AllPixelsHave(pixels, count) by {
      forall x | 0 <= x < |pixels|
        ensures |pixels[x]| == count
      {
        assert pixels[x] == buffer[start + x];
      }
    }
    Components(pixels, count)
  }

  /** Component `c` of pixel `x` lies inside a flat slice of `width` pixels only if pixel `x` does. */
  lemma PixelInside(x: nat, c: nat, count: nat, width: nat)
    requires x * count + c < width * count
    ensures x < width
  {
    if width <= x {
      MulMonotone(width, x, count);
    }
  }

  /** The first `k` components of a row are converted from `source`; the others are as in `before`. */
  ghost predicate ConvertedUpTo<In, Out>(row: seq<seq<Out>>, count: nat, into: In -> Out,
                                         source: seq<In>, before: seq<Out>, k: nat)
  {
    AllPixelsHave(row, count) && |source| == |before| == |row| * count && k <= |source| &&
    Components(row, count) == ConvertAll(into, source[..k]) + before[k..]
  }

  /**
   * One step of the component loop: converting component `k`, which is
   * component `c` of pixel `x`, of a row whose first `k` components are already
   * converted leaves the first `k + 1` converted.
   */
  lemma {:induction false} ConvertStep<In, Out>(row: seq<seq<Out>>, count: nat, k: nat, x: nat, c: nat,
                                                source: seq<In>, before: seq<Out>, into: In -> Out)
    requires ConvertedUpTo(row, count, into, source, before, k)
    requires k < |source| && k == x * count + c && c < count
    ensures x < |row| && |row[x]| == count
    ensures ConvertedUpTo(row[x := row[x][c := into(source[k])]], count, into, source, before, k + 1)
  {
    PixelInside(x, c, count, |row|);
    ComponentsUpdate(row, count, x, c, into(source[k]));
    var next := ConvertAll(into, source[..k + 1]) + before[k + 1..];
    assert Components(row, count)[k := into(source[k])] == next by {
      forall i | 0 <= i < |next|
        ensures Components(row, count)[k := into(source[k])][i] == next[i]
      {
        if i < k {
          assert source[..k + 1][i] == source[..k][i];
        }
      }
    }
  }

  /** Writing element `start + x` of a sequence writes element `x` of its slice from `start`, and nothing around it. */
  lemma SliceWrite<T>(a: seq<T>, b: seq<T>, start: nat, len: nat, x: nat)
    requires start + len <= |a| && x < len
    requires |b| == |a| && b == a[start + x := b[start + x]]
    ensures b[start .. start + len] == a[start .. start + len][x := b[start + x]]
    ensures b[..start] == a[..start] && b[start + len..] == a[start + len..]
  {
  }

  /**
   * The body of the component loop of `change_type_of_pixel_components`:
   * component `k` of the `len` pixels of `buffer` from `start` on, which is
   * component `c` of pixel `x`, is set to the conversion of component `k` of
   * `source`; nothing else is written.
   */
  method ConvertComponent<In, Out>(buffer: array<seq<Out>>, start: nat, len: nat, count: nat,
                                   source: seq<In>, into: In -> Out, k: nat, x: nat, c: nat,
                                   ghost before: seq<Out>)
    requires start + len <= buffer.Length && k < |source| && k == x * count + c && c < count
    requires ConvertedUpTo(buffer[start .. start + len], count, into, source, before, k)
    modifies buffer
    ensures ConvertedUpTo(buffer[start .. start + len], count, into, source, before, k + 1)
    ensures buffer[..start] == old(buffer[..start]) && buffer[start + len..] == old(buffer[start + len..])
  {
    ghost var current, whole := buffer[start .. start + len], buffer[..];
    ConvertStep(current, count, k, x, c, source, before, into);
    assert whole[start + x] == current[x];
    buffer[start + x] := buffer[start + x][c := into(source[k])];
    SliceWrite(whole, buffer[..], start, len, x);
  }

  /**
   * The inner loop of `change_type_of_pixel_components`: each component of the
   * `len` pixels of `buffer` from `start` on is set to the conversion of the
   * component at the same position of `source`; nothing else is written. The
   * flat position `k` walks the components in memory order, component `c` of
   * pixel `x`.
   */
  method ConvertRow<In, Out>(buffer: array<seq<Out>>, start: nat, len: nat, count: nat,
                             source: seq<In>, into: In -> Out)
    requires start + len <= buffer.Length && PixelsHave(buffer, count)
    requires |source| == len * count
    modifies buffer
    ensures PixelsHave(buffer, count)
    ensures SliceComponents(buffer, start, len, count) == ConvertAll(into, source)
    ensures buffer[..start] == old(buffer[..start]) && buffer[start + len..] == old(buffer[start + len..])
  {
    ghost var whole := buffer[..];
    ghost var before := SliceComponents(buffer, start, len, count);
    RowStart(buffer, start, len, count, source, into);
    var k, x, c := 0, 0, 0;
    while k < |source|
      invariant 0 <= k <= |source| && k == x * count + c
      invariant k < |source| ==> c < count
      invariant ConvertedUpTo(buffer[start .. start + len], count, into, source, before, k)
      invariant buffer[..start] == whole[..start]
      invariant buffer[start + len..] == whole[start + len..]
    {
      ConvertComponent(buffer, start, len, count, source, into, k, x, c, before);
      k := k + 1;
      if c + 1 == count {
        MulSucc(x, count);
        x, c := x + 1, 0;
      } else {
        c := c + 1;
      }
    }
    RowDone(buffer, whole, start, len, count, source, before, into);
  }

  /** Before the component loop, none of the row's components is converted yet. */
  lemma RowStart<In, Out>(buffer: array<seq<Out>>, start: nat, len: nat, count: nat,
                          source: seq<In>, into: In -> Out)
    requires start + len <= buffer.Length && PixelsHave(buffer, count)
    requires |source| == len * count
    ensures ConvertedUpTo(buffer[start .. start + len], count, into, source,
                          SliceComponents(buffer, start, len, count), 0)
  {
    var pixels := buffer[start .. start + len];
    forall x | 0 <= x < |pixels|
      ensures |pixels[x]| == count
    {
      assert pixels[x] == buffer[start + x];
    }
    var before := SliceComponents(buffer, start, len, count);
    assert ConvertAll(into, source[..0]) + before[0..] == before;
  }

  /** After the component loop, the whole row is converted and every pixel still has its components. */
  lemma RowDone<In, Out>(buffer: array<seq<Out>>, whole: seq<seq<Out>>, start: nat, len: nat, count: nat,
                         source: seq<In>, before: seq<Out>, into: In -> Out)
    requires start + len <= buffer.Length == |whole|
    requires forall i | 0 <= i < |whole| :: |whole[i]| == count
    requires buffer[..start] == whole[..start] && buffer[start + len..] == whole[start + len..]
    requires ConvertedUpTo(buffer[start .. start + len], count, into, source, before, |source|)
    ensures PixelsHave(buffer, count)
    ensures SliceComponents(buffer, start, len, count) == ConvertAll(into, source)
  {
    forall i | 0 <= i < buffer.Length
      ensures |buffer[i]| == count
    {
      if i < start {
        assert buffer[i] == buffer[..start][i];
      } else if i < start + len {
        assert buffer[i] == buffer[start .. start + len][i - start];
      } else {
        assert buffer[i] == buffer[start + len..][i - start - len];
      }
    }
    assert source[..|source|] == source;
  }

  /** In buffer state `a`, the components of row `row` are those of `srcRow`, converted with `into`. */
  ghost predicate RowConverted<In, Out>(a: seq<seq<Out>>, row: RowSlice, count: nat, into: In -> Out,
                                        srcRow: seq<seq<In>>)
  {
    row.start + row.len <= |a| &&
    AllPixelsHave(a[row.start .. row.start + row.len], count) && AllPixelsHave(srcRow, count) &&
    Components(a[row.start .. row.start + row.len], count) == ConvertAll(into, Components(srcRow, count))
  }

  /** A row whose slice components were just converted is converted in the buffer's state. */
  lemma SliceConverted<In, Out>(buffer: array<seq<Out>>, row: RowSlice, count: nat, into: In -> Out,
                                srcRow: seq<seq<In>>)
    requires row.start + row.len <= buffer.Length && PixelsHave(buffer, count) && AllPixelsHave(srcRow, count)
    requires SliceComponents(buffer, row.start, row.len, count) == ConvertAll(into, Components(srcRow, count))
    ensures RowConverted(buffer[..], row, count, into, srcRow)
  {
    var pixels := buffer[..][row.start .. row.start + row.len];
    assert pixels == buffer[row.start .. row.start + row.len];
    forall x | 0 <= x < |pixels|
      ensures |pixels[x]| == count
    {
      assert pixels[x] == buffer[row.start + x];
    }
  }

  /**
   * Writing only inside row `y` keeps every earlier row converted: the rows
   * are ordered, so each earlier row lies before row `y`.
   */
  lemma EarlierRowsKept<In, Out>(a: seq<seq<Out>>, b: seq<seq<Out>>, rows: seq<RowSlice>, width: nat, height: nat,
                                 y: nat, count: nat, into: In -> Out, srcRows: seq<seq<seq<In>>>)
    requires RowsValid(rows, width, height, |b|) && |a| == |b| && y < height && |srcRows| == height
    requires a[..rows[y].start] == b[..rows[y].start]
    requires forall y' | 0 <= y' < y :: RowConverted(b, rows[y'], count, into, srcRows[y'])
    ensures forall y' | 0 <= y' < y :: RowConverted(a, rows[y'], count, into, srcRows[y'])
  {
    forall y' | 0 <= y' < y
      ensures RowConverted(a, rows[y'], count, into, srcRows[y'])
    {
      PrefixSlice(a, b, rows[y].start, rows[y'].start, rows[y'].start + rows[y'].len);
    }
  }

  /** Sequences with the same first `p` elements have the same slices below `p`. */
  lemma PrefixSlice<T>(a: seq<T>, b: seq<T>, p: nat, lo: nat, hi: nat)
    requires lo <= hi <= p <= |a| && p <= |b| && a[..p] == b[..p]
    ensures a[lo .. hi] == b[lo .. hi]
  {
    forall i | 0 <= i < hi - lo
      ensures a[lo .. hi][i] == b[lo .. hi][i]
    {
      assert a[lo + i] == a[..p][lo + i] == b[..p][lo + i] == b[lo + i];
    }
  }

  /** Two buffer states that differ at most inside the row slices. */
  ghost predicate AgreeOutsideRows<C>(rows: seq<RowSlice>, a: seq<C>, b: seq<C>) {
    |a| == |b| && forall i | 0 <= i < |a| && !InRows(rows, i) :: a[i] == b[i]
  }

  /** Two buffer states that agree around row `y` agree outside the rows. */
  lemma AgreeAroundRow<C>(rows: seq<RowSlice>, y: nat, a: seq<C>, b: seq<C>)
    requires y < |rows| && rows[y].start + rows[y].len <= |a| == |b|
    requires a[..rows[y].start] == b[..rows[y].start]
    requires a[rows[y].start + rows[y].len..] == b[rows[y].start + rows[y].len..]
    ensures AgreeOutsideRows(rows, a, b)
  {
    var lo, hi := rows[y].start, rows[y].start + rows[y].len;
    forall i | 0 <= i < |a| && !InRows(rows, i)
      ensures a[i] == b[i]
    {
      if i < lo {
        assert a[i] == a[..lo][i];
      } else {
        assert i >= hi;
        assert a[i] == a[hi..][i - hi];
      }
    }
  }

  lemma AgreeOutsideRowsTrans<C>(rows: seq<RowSlice>, a: seq<C>, b: seq<C>, c: seq<C>)
    requires AgreeOutsideRows(rows, a, b) && AgreeOutsideRows(rows, b, c)
    ensures AgreeOutsideRows(rows, a, c)
  {
  }

  /**
   * `change_type_of_pixel_components`: writes into every pixel of `dst` the
   * pixel of `src` at the same place, each component converted with `into`
   * (one of the three `IntoPixelComponent` conversions). The source is read
   * through its full rows: its crop box plays no part.
   */
  method ChangeTypeOfPixelComponents<In, Out>(src: ImageView<seq<In>>, dst: ImageViewMut<seq<Out>>,
                                              count: nat, into: In -> Out)
    requires src.WellShaped() && dst.Valid()
    requires src.width == dst.width && src.height == dst.height
    requires forall y | 0 <= y < |src.rows| :: AllPixelsHave(src.rows[y], count)
    requires PixelsHave(dst.buffer, count)
    modifies dst.buffer
    ensures PixelsHave(dst.buffer, count)
    ensures forall y | 0 <= y < dst.height ::
      SliceComponents(dst.buffer, dst.rows[y].start, dst.rows[y].len, count) ==
      ConvertAll(into, Components(src.rows[y], count))
    ensures AgreeOutsideRows(dst.rows, dst.buffer[..], old(dst.buffer[..]))
  {
    var y := 0;
    while y < src.height
      invariant 0 <= y <= dst.height
      invariant PixelsHave(dst.buffer, count)
      invariant forall y' | 0 <= y' < y :: RowConverted(dst.buffer[..], dst.rows[y'], count, into, src.rows[y'])
      invariant AgreeOutsideRows(dst.rows, dst.buffer[..], old(dst.buffer[..]))
    {
      var row := dst.rows[y];
      ghost var before := dst.buffer[..];
      ConvertRow(dst.buffer, row.start, row.len, count, Components(src.rows[y], count), into);
      SliceConverted(dst.buffer, row, count, into, src.rows[y]);
      EarlierRowsKept(dst.buffer[..], before, dst.rows, dst.width, dst.height, y, count, into, src.rows);
      AgreeAroundRow(dst.rows, y, dst.buffer[..], before);
      AgreeOutsideRowsTrans(dst.rows, dst.buffer[..], before, old(dst.buffer[..]));
      y := y + 1;
    }
    forall y | 0 <= y < dst.height
      ensures SliceComponents(dst.buffer, dst.rows[y].start, dst.rows[y].len, count) ==
              ConvertAll(into, Components(src.rows[y], count))
    {
      assert dst.buffer[..][dst.rows[y].start .. dst.rows[y].start + dst.rows[y].len] ==
             dst.buffer[dst.rows[y].start .. dst.rows[y].start + dst.rows[y].len];
    }
  }
}
