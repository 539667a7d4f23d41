/**
 * Pixel formats and pixel components: the component types with their value
 * counts, the ten pixel types with their component counts and byte sizes, the
 * flat component view of a pixel slice, the reading of pixels out of a byte
 * buffer, and the three component conversions.
 */
module Pixels {
  import opened Slices

  newtype uint8 = x: int | 0 <= x < 0x100
  newtype uint16 = x: int | 0 <= x < 0x1_0000

  /** The types that implement `PixelComponent`. */
  datatype ComponentType = ComponentU8 | ComponentU16 | ComponentI32 | ComponentF32

  /** Bytes taken by one component (`size_of` of the primitive). */
  function ComponentSize(c: ComponentType): nat {
    match c
    case ComponentU8 => 1
    case ComponentU16 => 2
    case ComponentI32 => 4
    case ComponentF32 => 4
  }

  function Pow2(k: nat): nat {
    if k == 0 then 1 else 2 * Pow2(k - 1)
  }

  /**
   * `PixelComponent::count_of_values`, the `N` of the component's `Values<N>`.
   * For the unsigned components it is the number of values the component's
   * bits can take; the signed and the floating-point component declare 0.
   */
  function CountOfValues(c: ComponentType): (n: nat)
    ensures c.ComponentU8? || c.ComponentU16? ==> n == Pow2(8 * ComponentSize(c))
    ensures c.ComponentI32? || c.ComponentF32? ==> n == 0
  {
    match c
    case ComponentU8 => 256
    case ComponentU16 => Pow2Add(8, 8); 65536
    case ComponentI32 => 0
    case ComponentF32 => 0
  }

  lemma {:induction false} Pow2Add(a: nat, b: nat)
    ensures Pow2(a + b) == Pow2(a) * Pow2(b)
  {
    if a > 0 {
      calc {
        Pow2(a + b);
        2 * Pow2(a - 1 + b);
        { Pow2Add(a - 1, b); }
        2 * (Pow2(a - 1) * Pow2(b));
        (2 * Pow2(a - 1)) * Pow2(b);
        Pow2(a) * Pow2(b);
      }
    }
  }

  /** The Rust type `T` a `Pixel<T, C, N>` stores its components in. */
  datatype StorageType =
    | U8Storage | U16Storage | U32Storage | I32Storage | F32Storage
    | ArrayOf(element: StorageType, length: nat)

  /** `size_of::<T>()`. */
  function SizeOf(t: StorageType): nat {
    match t
    case U8Storage => 1
    case U16Storage => 2
    case U32Storage => 4
    case I32Storage => 4
    case F32Storage => 4
    case ArrayOf(e, len) => len * SizeOf(e)
  }

  /** The aliases declared with `pixel_struct!`. */
  datatype PixelType = U8 | U8x2 | U8x3 | U8x4 | U16 | U16x2 | U16x3 | U16x4 | I32 | F32 {

    /** The `C` of `Pixel<T, C, N>`. */
    function Component(): ComponentType {
      match this
      case U8 | U8x2 | U8x3 | U8x4 => ComponentU8
      case U16 | U16x2 | U16x3 | U16x4 => ComponentU16
      case I32 => ComponentI32
      case F32 => ComponentF32
    }

    /** `PixelExt::count_of_components`, the `N` of `Pixel<T, C, N>`. */
    function CountOfComponents(): (n: nat)
      ensures 1 <= n <= 4
      ensures n == 1 <==> this in {U8, U16, I32, F32}
    {
      match this
      case U8 | U16 | I32 | F32 => 1
      case U8x2 | U16x2 => 2
      case U8x3 | U16x3 => 3
      case U8x4 | U16x4 => 4
    }

    /** The `T` of `Pixel<T, C, N>`. */
    function Storage(): StorageType {
      match this
      case U8 => U8Storage
      case U8x2 => U16Storage
      case U8x3 => ArrayOf(U8Storage, 3)
      case U8x4 => U32Storage
      case U16 => U16Storage
      case U16x2 => ArrayOf(U16Storage, 2)
      case U16x3 => ArrayOf(U16Storage, 3)
      case U16x4 => ArrayOf(U16Storage, 4)
      case I32 => I32Storage
      case F32 => F32Storage
    }

    /**
     * `PixelExt::size`: the byte size of the storage type, which is always
     * exactly the components laid side by side.
     */
    function Size(): (bytes: nat)
      ensures bytes == ComponentSize(Component()) * CountOfComponents()
      ensures bytes > 0
    {
      SizeOf(Storage())
    }

    /** `PixelExt::count_of_component_values`. */
    function CountOfComponentValues(): (n: nat)
      ensures n > 0 <==> Component() in {ComponentU8, ComponentU16}
      ensures n > 0 ==> n == Pow2(8 * ComponentSize(Component()))
    {
      CountOfValues(Component())
    }
  }

  /**
   * What reading pixels of type `P` out of a byte buffer needs: the pixel's
   * byte size and how its bytes, in the host's byte order, make a pixel.
   */
  datatype Layout<P> = Layout(size: nat, decode: seq<uint8> -> P)

  /** The layout of pixel type `t`: `P::size()` bytes per pixel, decoded by `decode`. */
  function PixelLayout<P>(t: PixelType, decode: seq<uint8> -> P): (layout: Layout<P>)
    ensures layout.size == ComponentSize(t.Component()) * t.CountOfComponents() && layout.size > 0
    ensures layout.decode == decode
  {
    Layout(t.Size(), decode)
  }

  /**
   * `buffer.align_to::<P>()` when the buffer is suitably aligned (no head):
   * the buffer cut into whole pixels, a short tail left over.
   */
  function AlignTo<P>(buffer: seq<uint8>, layout: Layout<P>): (pixels: seq<P>)
    requires layout.size > 0
    ensures |pixels| * layout.size <= |buffer| < |pixels| * layout.size + layout.size
  {
    var chunks := ChunksExact(buffer, layout.size);
    DecodeAll(chunks, layout.decode)
  }

  /** Pixel `k` read from a buffer is decoded from bytes `k * size .. k * size + size`. */
  lemma AlignToPixel<P>(buffer: seq<uint8>, layout: Layout<P>, k: nat)
    requires layout.size > 0 && k < |AlignTo(buffer, layout)|
    ensures k * layout.size + layout.size <= |buffer|
    ensures AlignTo(buffer, layout)[k] == layout.decode(buffer[k * layout.size .. k * layout.size + layout.size])
  {
    var chunks := ChunksExact(buffer, layout.size);
    assert chunks[k] == buffer[k * layout.size .. k * layout.size + layout.size];
  }

  function DecodeAll<P>(chunks: seq<seq<uint8>>, decode: seq<uint8> -> P): (pixels: seq<P>)
    ensures |pixels| == |chunks|
    ensures forall k | 0 <= k < |chunks| :: pixels[k] == decode(chunks[k])
  {
    seq(|chunks|, k requires 0 <= k < |chunks| => decode(chunks[k]))
  }

  /** A buffer of at least `count * size` bytes holds at least `count` whole pixels. */
  lemma AlignToCovers<P>(buffer: seq<uint8>, layout: Layout<P>, count: nat)
    requires layout.size > 0 && |buffer| >= count * layout.size
    ensures |AlignTo(buffer, layout)| >= count
  {
    ChunksCover(buffer, layout.size, count);
  }

  /** `align_to` yields the buffer length divided by the pixel size, rounded down. */
  lemma AlignToCount<P>(buffer: seq<uint8>, layout: Layout<P>)
    requires layout.size > 0
    ensures |AlignTo(buffer, layout)| == |buffer| / layout.size
  {
    QuotientIsDiv(|buffer|, layout.size, |AlignTo(buffer, layout)|);
  }

  /** Every pixel of a `Pixel<T, C, N>` slice, as its `N` components in memory order. */
  predicate AllPixelsHave<C>(pixels: seq<seq<C>>, count: nat) {
    forall x | 0 <= x < |pixels| :: |pixels[x]| == count
  }

  /**
   * `PixelExt::components` and `components_mut`: the slice of pixels seen as
   * the slice of their components, `count` per pixel.
   */
  function Components<C>(pixels: seq<seq<C>>, count: nat): (comps: seq<C>)
    requires AllPixelsHave(pixels, count)
    ensures |comps| == |pixels| * count
  {
    if pixels == [] then [] else pixels[0] + Components(pixels[1..], count)
  }

  /** Component `c` of pixel `x` sits at `x * count + c` of the component slice. */
  lemma {:induction false} ComponentAt<C>(pixels: seq<seq<C>>, count: nat, x: nat, c: nat)
    requires AllPixelsHave(pixels, count)
    requires x < |pixels| && c < count
    ensures x * count + c < |Components(pixels, count)|
    ensures Components(pixels, count)[x * count + c] == pixels[x][c]
  {
    if x > 0 {
      ComponentAt(pixels[1..], count, x - 1, c);
      MulSucc(x - 1, count);
    }
  }

  /** Writing component `c` of pixel `x` writes element `x * count + c` of the component slice. */
  lemma {:induction false} ComponentsUpdate<C>(pixels: seq<seq<C>>, count: nat, x: nat, c: nat, v: C)
    requires AllPixelsHave(pixels, count)
    requires x < |pixels| && c < count
    ensures AllPixelsHave(pixels[x := pixels[x][c := v]], count)
    ensures x * count + c < |pixels| * count
    ensures Components(pixels[x := pixels[x][c := v]], count) == Components(pixels, count)[x * count + c := v]
  {
    var updated := pixels[x := pixels[x][c := v]];
    var rest := Components(pixels[1..], count);
    if x == 0 {
      assert updated[1..] == pixels[1..];
      calc {
        Components(updated, count);
        updated[0] + Components(updated[1..], count);
        pixels[0][c := v] + rest;
        { ConcatUpdate(pixels[0], rest, c, v); }
        (pixels[0] + rest)[c := v];
      }
    } else {
      assert updated[1..] == pixels[1..][x - 1 := pixels[1..][x - 1][c := v]];
      ComponentsUpdate(pixels[1..], count, x - 1, c, v);
      MulSucc(x - 1, count);
      calc {
        Components(updated, count);
        updated[0] + Components(updated[1..], count);
        pixels[0] + rest[(x - 1) * count + c := v];
        { ConcatUpdate(pixels[0], rest, x * count + c, v); }
        (pixels[0] + rest)[x * count + c := v];
      }
    }
  }

  /** Updating an element of a concatenation updates the part it falls in. */
  lemma ConcatUpdate<T>(a: seq<T>, b: seq<T>, i: nat, v: T)
    requires i < |a| + |b|
    ensures i < |a| ==> (a + b)[i := v] == a[i := v] + b
    ensures |a| <= i ==> (a + b)[i := v] == a + b[i - |a| := v]
  {
    if i < |a| {
      assert (a + b)[i := v] == a[i := v] + b;
    } else {
      assert (a + b)[i := v] == a + b[i - |a| := v];
    }
  }

  /**
   * Pixel slices whose component slices correspond by a conversion correspond
   * pixel by pixel, component by component.
   */
  lemma {:induction false} ConvertedPixel<In, Out>(dst: seq<seq<Out>>, src: seq<seq<In>>, count: nat,
                                                   into: In -> Out, x: nat, c: nat)
    requires AllPixelsHave(dst, count) && AllPixelsHave(src, count) && |dst| == |src|
    requires Components(dst, count) == ConvertAll(into, Components(src, count))
    requires x < |dst| && c < count
    ensures dst[x][c] == into(src[x][c])
  {
    ComponentAt(dst, count, x, c);
    ComponentAt(src, count, x, c);
  }

  /** Converting a component slice element by element. */
  function ConvertAll<In, Out>(into: In -> Out, s: seq<In>): (r: seq<Out>)
    ensures |r| == |s| && forall i | 0 <= i < |s| :: r[i] == into(s[i])
  {
    seq(|s|, i requires 0 <= i < |s| => into(s[i]))
  }

  /** `u16::to_le_bytes`. */
  function ToLeBytes(v: uint16): seq<uint8> {
    [(v % 256) as uint8, (v / 256) as uint8]
  }

  /** `u16::from_le_bytes`. */
  function FromLeBytes(bytes: seq<uint8>): uint16
    requires |bytes| == 2
  {
    (bytes[0] as int + 256 * bytes[1] as int) as uint16
  }

  lemma LeBytesRoundTrip(v: uint16, bytes: seq<uint8>)
    requires |bytes| == 2
    ensures FromLeBytes(ToLeBytes(v)) == v
    ensures ToLeBytes(FromLeBytes(bytes)) == bytes
  {
  }

  /** `impl<C> IntoPixelComponent<C> for C`: a component converted to its own type. */
  function IntoSame<C>(v: C): (r: C)
    ensures r == v
  {
    v
  }

  /** `impl IntoPixelComponent<u8> for u16`: the high byte, so the value divided by 256, rounded down. */
  function U16IntoU8(v: uint16): (r: uint8)
    ensures r as int == v as int / 256
    ensures 256 * r as int <= v as int < 256 * r as int + 256
  {
    ToLeBytes(v)[1]
  }

  /** `impl IntoPixelComponent<u16> for u8`: the byte in both bytes, so the value times 257. */
  function U8IntoU16(v: uint8): (r: uint16)
    ensures r as int == 257 * v as int
    ensures v == 0 ==> r == 0
    ensures v == 255 ==> r == 65535
  {
    FromLeBytes([v, v])
  }

  /** Widening an 8-bit component to 16 bits and narrowing it back gives it back, for all 256 values. */
  lemma U8RoundTrip(v: uint8)
    ensures U16IntoU8(U8IntoU16(v)) == v
  {
  }

  /** Narrowing and widening again moves a 16-bit component by less than one 8-bit step. */
  lemma U16RoundTripError(v: uint16)
    ensures -255 <= U8IntoU16(U16IntoU8(v)) as int - v as int <= 255
  {
  }

  /** Converting to the component's own type changes nothing. */
  lemma ConvertSameIsCopy<C>(s: seq<C>)
    ensures ConvertAll(IntoSame, s) == s
  {
    assert forall i | 0 <= i < |s| :: ConvertAll(IntoSame, s)[i] == s[i];
  }
}
