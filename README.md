# fer pixel and view layer, in Dafny

This project models the layer of the `fer` image-resizing crate that every
resize algorithm stands on: pixel formats, images, and the row views built
over image buffers.

- **Pixels** (`pixels.dfy`, module `Pixels`):
  - the four component types and how many values each declares;
  - the ten `pixel_struct!` aliases, each with its component type, component count, storage type and byte size;
  - reading pixels out of a byte buffer, as `align_to` does;
  - the flat component view of a pixel slice, as `PixelExt::components` and `components_mut` give it;
  - the three `IntoPixelComponent` conversions.
- **Views** (`image_view.dfy`, module `ImageViews`):
  - `CropBox` and the bounds a crop box must respect;
  - the immutable `ImageView`: its rows, its crop box, and its row iterators and row access;
  - the mutable `ImageViewMut`, as a pixel array plus a list of non-overlapping row slices into it, with its row iterators, row access and `crop`;
  - the `From<ImageViewMut>` conversion;
  - `change_type_of_pixel_components`, the row-by-row, component-by-component copy with conversion between two views.
- **Images** (`image.dfy`, module `Images`):
  - `Image`, a byte buffer with dimensions, either owned by the image or the caller's;
  - `InnerImage`, a pixel slice with dimensions;
  - the views each of them hands out.
- `slices.dfy` (module `Slices`) defines the Rust slice operations these are built from: `chunks_exact`, `get(a..b).unwrap_or(&[])` and `min`. `wrappers.dfy` defines `Option`.

How the model renders the source:

- **Preconditions.** In this crate `error!()` expands to `unreachable_unchecked`. Each condition that the source guards with `error!()` is therefore a `requires` for the caller to meet: the buffer-size checks, the crop-box bounds, and equal view dimensions.
- **Integers.** Widths, heights and offsets are unbounded naturals. `NonZeroU32` and `u32` are subset types below 2^32. Where the source multiplies `width * height` in `u32`, a `requires` keeps the product below 2^32.
- **Reading pixels from bytes.** Reading pixels of type `P` from bytes needs a `Layout<P>`: the pixel's byte size, plus a function that turns that many bytes into a pixel. `AlignTo` cuts the buffer into whole pixels and decodes each one.
- **Multi-component pixels.** In the component-level code, a pixel with several components is a `seq<C>` of `count` components.
- **Mutable rows.** A mutable view's rows are offset/length slices (`RowSlice`) into the view's `array<P>`. Writing a row writes the shared array, and `crop` narrows the slices without copying.

## Model

| member | source | states |
|---|---|---|
| Slices.ChunksExact | src/image_view.rs:42-45 | the chunks are consecutive, each of exactly `n` elements, and chunk `k` is elements `k*n .. k*n+n`; they cover the slice except for a tail shorter than `n` |
| Slices.ChunkCount | src/image_view.rs:178 | the number of whole chunks is the length divided by the chunk size, rounded down |
| Slices.ChunksCover | src/image_view.rs:36-45 | a slice of at least `n*h` elements has at least `h` whole chunks of `n`, so `take(h)` yields `h` rows |
| Slices.WholeChunks | src/image_view.rs:43 | the number of whole chunks `q` satisfies `q*n <= len < q*n + n` |
| Slices.FirstChunks | src/image_view.rs:43-44 | the first `q` chunks are the consecutive `n`-element pieces from the start |
| Slices.QuotientIsDiv | src/image_view.rs:178 | the only `q` with `q*n <= a < q*n + n` is `a / n` |
| Pixels.CountOfValues | src/pixels.rs:48-59 | `u8` and `u16` declare 2^8 and 2^16 values, i.e. 2 to the power of their bit width; `i32` and `f32` declare 0 |
| Pixels.PixelType.Size | src/pixels.rs:90-92 | the byte size of every alias's storage type is exactly the component size times the component count (so U8x3 is 3, U8x2 is 2, U8 is 1), and is never 0 |
| Pixels.PixelType.CountOfComponents | src/pixels.rs:71-74 | every alias has one to four components, and exactly U8, U16, I32 and F32 have one (the counts of src/pixels.rs:157-190) |
| Pixels.PixelType.CountOfComponentValues | src/pixels.rs:76-79 | a pixel type declares a nonzero number of component values exactly when its component is unsigned, and then 2 to the power of the component's bit width |
| Pixels.PixelLayout | src/pixels.rs:90-92 | the layout of a pixel type reads `P::size()` bytes per pixel, the component size times the component count, never 0 |
| Pixels.AlignTo | src/image_view.rs:358-364 | the buffer read as whole pixels: as many as fit, with fewer than `size` bytes left over |
| Pixels.AlignToPixel | src/image_view.rs:358-364 | pixel `k` read from the buffer is decoded from bytes `k*size .. k*size+size`, which lie inside the buffer |
| Pixels.AlignToCount | src/image_view.rs:358-364 | the number of pixels read is the byte length divided by the pixel size |
| Pixels.AlignToCovers | src/image_view.rs:36-41 | a buffer that passes the size check (`count * size` bytes) yields at least `count` pixels |
| Pixels.Components | src/pixels.rs:94-106 | the component view of `n` pixels of `count` components holds `n * count` components |
| Pixels.ComponentAt | src/pixels.rs:94-99 | component `x*count + c` of the flat view is component `c` of pixel `x` |
| Pixels.ComponentsUpdate | src/pixels.rs:101-106 | writing component `x*count + c` of the flat view is writing component `c` of pixel `x`, and no other pixel |
| Pixels.ConvertedPixel | src/image_view.rs:388-394 | when the component views correspond by a conversion, component `c` of pixel `x` is the conversion of the source's component `c` of pixel `x` |
| Pixels.ConvertAll | src/image_view.rs:391-393 | the converted components are as many as the source's, each the conversion of the one at the same index |
| Pixels.LeBytesRoundTrip | src/pixels.rs:205-215 | `from_le_bytes` inverts `to_le_bytes` on `u16` |
| Pixels.U16IntoU8 | src/pixels.rs:205-209 | the `u16` to `u8` conversion keeps the high byte: `v / 256`, so `256*r <= v < 256*r + 256` |
| Pixels.U8IntoU16 | src/pixels.rs:211-215 | the `u8` to `u16` conversion repeats the byte: `257 * v`, mapping 0 to 0 and 255 to 65535 |
| Pixels.U8RoundTrip | src/pixels.rs:205-215 | widening a `u8` to `u16` and narrowing it back gives the same `u8` |
| Pixels.U16RoundTripError | src/pixels.rs:205-215 | narrowing a `u16` to `u8` and widening it back changes it by at most 255 |
| Pixels.IntoSame | src/pixels.rs:199-203 | converting a component to its own type returns it unchanged |
| Pixels.ConvertSameIsCopy | src/pixels.rs:199-203 | converting a component slice to its own type leaves it unchanged |
| ImageViews.CropFitsIffCovered | src/image_view.rs:95-102 | the crop-box bounds that `set_crop_box` and `crop` (src/image_view.rs:309-316) insist on hold exactly when every pixel the box covers lies inside the image |
| ImageViews.FullFrame | src/image_view.rs:49-54 | the initial crop box satisfies the crop-box bounds and contains every crop box that does |
| ImageViews.ChunkRows | src/image_view.rs:40-45 | the view has `height` rows of `width` pixels, and row `y` is pixels `y*width .. y*width+width` |
| ImageViews.ImageView.New | src/image_view.rs:35-57 | given a buffer of at least `width*height*size` bytes, the view's rows are the first `height` chunks of `width` pixels read from it; the crop box is the full frame |
| ImageViews.ImageView.FromPixels | src/image_view.rs:59-80 | given at least `width*height` pixels, the rows are their first `height` chunks of `width`; the crop box is the full frame |
| ImageViews.ImageView.SetCropBox | src/image_view.rs:94-104 | a crop box inside the image (left and top inside it, right and bottom at most the width and height) replaces the old one |
| ImageViews.ImageView.Iter4Rows | src/image_view.rs:170-182 | the rows from `start_y` to `min(max_y, height)` in consecutive groups of four, `(end - start_y) / 4` of them, none when `start_y` is past the end |
| ImageViews.ImageView.Iter2Rows | src/image_view.rs:185-197 | the same window in consecutive pairs, `(end - start_y) / 2` of them |
| ImageViews.ImageView.IterRows | src/image_view.rs:200-204 | the rows from `start_y` on, in order, and none when `start_y` is past the height |
| ImageViews.ImageView.GetRow | src/image_view.rs:207-209 | a row is returned exactly when `y < height`, and it is row `y`, of `width` pixels |
| ImageViews.ImageView.FromMut | src/image_view.rs:333-356 | the immutable view sees the mutable view's rows and dimensions, with the crop box reset to its full frame |
| ImageViews.RowSlices | src/image_view.rs:251-254 | row `y` of a mutable view is the `width` pixels from `y*width`; the rows lie inside the buffer in order, without overlap |
| ImageViews.CropRows | src/image_view.rs:317-324 | the cropped view has the crop box's height, each row has the crop box's width, and its cell `(i, j)` is cell `(top+i, left+j)` of the original |
| ImageViews.CropRowsValid | src/image_view.rs:308-330 | cropping keeps the rows inside the buffer, in order and without overlap, and each cropped row inside its original row |
| ImageViews.ImageViewMut.New | src/image_view.rs:244-260 | given a buffer of at least `width*height*size` bytes, the view's pixels are those read from it, and its rows are the first `height` chunks of `width` |
| ImageViews.ImageViewMut.FromPixels | src/image_view.rs:262-277 | given at least `width*height` pixels, the view writes into that very array, with rows of `width` from the start |
| ImageViews.ImageViewMut.IterRowsMut | src/image_view.rs:288-290 | every row, in order, each inside the buffer and disjoint from the others |
| ImageViews.ImageViewMut.Iter4RowsMut | src/image_view.rs:293-300 | the rows in consecutive groups of four, `height / 4` groups, with the leftover rows not yielded |
| ImageViews.ImageViewMut.GetRowMut | src/image_view.rs:303-305 | a row is returned exactly when `y < height`, and it is row `y`, inside the buffer |
| ImageViews.ImageViewMut.Crop | src/image_view.rs:308-330 | given a crop box inside the view, the result shares the buffer, has the crop box's dimensions and the cropped rows, and is a well-formed view |
| ImageViews.ConvertComponent | src/image_view.rs:391-393 | writing one destination component, component `c` of pixel `x`, extends the converted prefix of the row by one and writes nothing outside the row |
| ImageViews.ConvertRow | src/image_view.rs:389-393 | one row's components become the conversions of the source row's components, and nothing outside that row changes |
| ImageViews.ChangeTypeOfPixelComponents | src/image_view.rs:374-395 | for views of equal dimensions, every destination row's components (its slice's components, as `components_mut` sees them) are the conversions of the source row's components, in order, and nothing outside the destination rows changes |
| Images.Image.New | src/image.rs:33-42 | an image owning exactly `width*height*size` zero bytes |
| Images.Image.FromVecU8 | src/image.rs:44-55 | given at least `width*height*size` bytes, the image owns exactly those bytes |
| Images.Image.FromSliceU8 | src/image.rs:57-72 | given at least `width*height*size` bytes, the image is over the caller's buffer itself |
| Images.Image.Copy | src/image.rs:74-82 | a new image with the same dimensions and bytes in storage of its own |
| Images.Image.Buffer | src/image.rs:94-101 | the stored bytes, at least `width*height*size` of them |
| Images.Image.BufferMut | src/image.rs:103-110 | the stored buffer itself, for writing in place |
| Images.Image.IntoVec | src/image.rs:112-118 | the stored bytes as an owned vector |
| Images.Image.View | src/image.rs:120-123 | an immutable view with the image's dimensions over the pixels read from its bytes |
| Images.Image.ViewMut | src/image.rs:125-128 | a mutable view with the image's dimensions over the pixels read from its bytes |
| Images.InnerImage.New | src/image.rs:145-151 | the container holds the given dimensions and pixel slice, unchecked |
| Images.InnerImage.SrcView | src/image.rs:153-156 | an immutable view over the pixels, with the container's dimensions |
| Images.InnerImage.DstView | src/image.rs:158-161 | a mutable view writing into the container's pixels, with its dimensions |

## Left out

- `set_crop_box_to_fit_dst_size` is not modelled: it computes the crop box in `f32`, with rounding, and the model has no floating point.
- `iter_rows_with_step` is not modelled: it steps through the rows with an `f64` position.
- The alignment check of `align_buffer_to` is not modelled. Misalignment depends on the address of the buffer in memory, which the model does not have, so `AlignTo` models an aligned buffer only.
- The host byte order in which a pixel's bytes become a pixel is not modelled: it is the `decode` function of `Layout`, a parameter.
- ImageViews.ImageViewMut.New does not write through to the byte buffer. Dafny cannot read an `array<uint8>` as an `array<P>`, so the view is over a new array holding the decoded pixels, and its writes do not reach the bytes.
- Images.Image.ViewMut does not write through to the image's bytes, for the same reason: it builds its view with `ImageViewMut.New`.
- ImageViews.ImageView.New and ImageViews.ImageView.FromPixels hold their rows as values. A shared borrow of the buffer cannot change while the view lives, so values and the borrowed slices agree.
- Images.Image.New requires `width * height < 2^32`. In the source, an overflowing `u32` product panics in a debug build and wraps in a release build. The model requires the same bound everywhere else the source multiplies in `u32`.
- ImageViews.ImageView.SetCropBox and ImageViews.ImageViewMut.Crop compare the crop-box bounds without `u32` wraparound. The source adds `left + width` and `top + height` in `u32`. In a release build a sum past 2^32 wraps to a small value that passes the checks, so the source can accept a box wider or taller than the image. The model's `CropFits` adds in unbounded integers, so the requires exclude such boxes.
- ImageViews.ImageViewMut.IterRowsMut, ImageViews.ImageViewMut.Iter4RowsMut and ImageViews.ImageViewMut.GetRowMut return the row slices as values. The source hands out `&mut &mut [P]`, so a caller can also replace or swap the row slices themselves. The model's row list is a constant, so it captures writes to the pixels of a row but not changes to which slice a row is.
- The `MutU8`/`VecU8` distinction of `Image`'s buffer is not modelled. Both are an `array<uint8>`: one the image allocates, or the caller's own.
- The `Debug` implementations are not modelled, because they only format values.
- The width and height getters are not modelled as separate members. They are the `width` and `height` constant fields.
- The `Count<N>` and `Values<N>` carriers are not modelled as separate types. Their numbers are `PixelType.CountOfComponents`, `CountOfValues` and `PixelType.CountOfComponentValues`.
- `change_type_of_pixel_components` takes the component conversion as a function parameter, `into`, rather than resolving it from the component types. The three conversions of the crate are `IntoSame`, `U16IntoU8` and `U8IntoU16`.
- Lifetimes and the borrow checker are not modelled. The model states which views share storage (`ensures view.buffer == buffer`) and which do not (`fresh`).
- `mul_div.rs` and `lib.rs` are not part of this model, apart from `error!()`, which becomes a precondition as described above.
