/**
 * The owned image container: dimensions and a byte buffer, either allocated
 * by the image or supplied by the caller, and the views built over it; and
 * the internal container over a pixel slice.
 */
module Images {
  import opened Pixels
  import opened ImageViews

  /** Simple container of image data: a byte buffer holding the pixels row after row. */
  class Image<P> {
    const width: NonZeroU32
    const height: NonZeroU32
    const buffer: array<uint8>
    const layout: Layout<P>

    /** The buffer holds at least the `width * height` pixels the dimensions call for. */
    predicate Valid() {
      layout.size > 0 && width * height < U32_LIMIT && buffer.Length >= width * height * layout.size
    }

    /** An image of the given dimensions with every byte zero. */
    constructor New(width: NonZeroU32, height: NonZeroU32, layout: Layout<P>)
      requires layout.size > 0 && width * height < U32_LIMIT
      ensures Valid() && fresh(buffer)
      ensures this.width == width && this.height == height && this.layout == layout
      ensures buffer.Length == width * height * layout.size
      ensures forall i | 0 <= i < buffer.Length :: buffer[i] == 0
    {
      this.width := width;
      this.height := height;
      this.layout := layout;
      buffer := new uint8[width * height * layout.size](_ => 0);
    }

    /** An image owning the given bytes, which must hold at least `width * height` pixels. */
    constructor FromVecU8(width: NonZeroU32, height: NonZeroU32, buffer: seq<uint8>, layout: Layout<P>)
      requires layout.size > 0 && width * height < U32_LIMIT
      requires |buffer| >= width * height * layout.size
      ensures Valid() && fresh(this.buffer)
      ensures this.width == width && this.height == height && this.layout == layout
      ensures this.buffer[..] == buffer
    {
      this.width := width;
      this.height := height;
      this.layout := layout;
      var bytes := new uint8[|buffer|](i requires 0 <= i < |buffer| => buffer[i]);
      assert bytes[..] == buffer;
      this.buffer := bytes;
    }

    /** An image over the caller's byte buffer, which must hold at least `width * height` pixels. */
    constructor FromSliceU8(width: NonZeroU32, height: NonZeroU32, buffer: array<uint8>, layout: Layout<P>)
      requires layout.size > 0 && width * height < U32_LIMIT
      requires buffer.Length >= width * height * layout.size
      ensures Valid()
      ensures this.width == width && this.height == height && this.layout == layout
      ensures this.buffer == buffer
    {
      this.width := width;
      this.height := height;
      this.layout := layout;
      this.buffer := buffer;
    }

    /** An image with the same dimensions and bytes, in storage of its own. */
    method Copy() returns (copy: Image<P>)
      requires Valid()
      ensures fresh(copy) && fresh(copy.buffer) && copy.Valid()
      ensures copy.width == width && copy.height == height && copy.layout == layout
      ensures copy.buffer[..] == buffer[..]
    {
      copy := new Image.FromVecU8(width, height, buffer[..], layout);
    }

    /** `buffer`: the stored bytes, at least as many as the pixels need. */
    function Buffer(): (bytes: seq<uint8>)
      requires Valid()
      reads buffer
      ensures |bytes| >= width * height * layout.size
      ensures bytes == buffer[..]
    {
      buffer[..]
    }

    /** `buffer_mut`: the stored bytes themselves, for writing in place. */
    method BufferMut() returns (bytes: array<uint8>)
      requires Valid()
      ensures bytes == buffer && bytes.Length >= width * height * layout.size
    {
      bytes := buffer;
    }

    /** `into_vec`: the stored bytes, as an owned vector. */
    method IntoVec() returns (bytes: seq<uint8>)
      requires Valid()
      ensures |bytes| >= width * height * layout.size
      ensures bytes == buffer[..]
    {
      bytes := buffer[..];
    }

    /** `view`: an immutable view with the image's dimensions over its bytes. */
    method View() returns (view: ImageView<P>)
      requires Valid()
      ensures fresh(view) && view.Valid()
      ensures view.width == width && view.height == height
      ensures view.cropBox == FullFrame(width, height)
      ensures |AlignTo(buffer[..], layout)| >= width * height
      ensures view.rows == ChunkRows(AlignTo(buffer[..], layout), width, height)
    {
      view := new ImageView.New(width, height, buffer[..], layout);
    }

    /** `view_mut`: a mutable view with the image's dimensions over the pixels of its bytes. */
    method ViewMut() returns (view: ImageViewMut<P>)
      requires Valid()
      ensures fresh(view) && view.Valid()
      ensures view.width == width && view.height == height
      ensures view.buffer[..] == AlignTo(buffer[..], layout)
      ensures view.buffer.Length >= width * height
      ensures view.rows == RowSlices(view.buffer.Length, width, height)
    {
      view := new ImageViewMut.New(width, height, buffer, layout);
    }
  }

  /** Generic image container for internal purposes: dimensions and a pixel slice. */
  class InnerImage<P> {
    const width: NonZeroU32
    const height: NonZeroU32
    const pixels: array<P>

    constructor New(width: NonZeroU32, height: NonZeroU32, pixels: array<P>)
      ensures this.width == width && this.height == height && this.pixels == pixels
    {
      this.width := width;
      this.height := height;
      this.pixels := pixels;
    }

    /** `src_view`: an immutable view of the pixels with the container's dimensions. */
    method SrcView() returns (view: ImageView<P>)
      requires width * height < U32_LIMIT && pixels.Length >= width * height
      ensures fresh(view) && view.Valid()
      ensures view.width == width && view.height == height
      ensures view.cropBox == FullFrame(width, height)
      ensures view.rows == ChunkRows(pixels[..], width, height)
    {
      view := new ImageView.FromPixels(width, height, pixels[..]);
    }

    /** `dst_view`: a mutable view writing into the pixels, with the container's dimensions. */
    method DstView() returns (view: ImageViewMut<P>)
      requires width * height < U32_LIMIT && pixels.Length >= width * height
      ensures fresh(view) && view.Valid()
      ensures view.width == width && view.height == height && view.buffer == pixels
      ensures view.rows == RowSlices(pixels.Length, width, height)
    {
      view := new ImageViewMut.FromPixels(width, height, pixels);
    }
  }
}
