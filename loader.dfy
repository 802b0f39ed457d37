/**
 * `loadBMP`: open the file, validate the header, read width * height * 3
 * pixel bytes from the data offset into a fresh buffer and convert them
 * from BGR to RGB in place. Status 0 on success, -1 on every failure.
 */
module Loader {
  import opened Wrappers
  import opened Stdio
  import opened BmpHeader
  import opened Pixels

  /** Number of distinct values of the 32-bit `uint32_t` image size. */
  const SizeLimit: int := 0x1_0000_0000

  /** The image size in bytes that the header's dimensions call for: three bytes per pixel. */
  function ImageSize(width: int, height: int): (size: int)
    ensures size % 3 == 0
  {
    var area := width * height;
    3 * area
  }

  /** A loaded image: signed dimensions, size in bytes and RGB pixel bytes. */
  datatype Image = Image(width: int, height: int, imageSize: nat, pixels: seq<byte>)

  /**
   * What a load produces. `None` stands for a file that cannot be opened.
   * The image size is the mathematical product width * height * 3; a product
   * that does not fit the 32-bit size is rejected (see SizeOverflow and the
   * members ImageSizeAsWritten / WrappedSizeOverrunsBuffer for what the
   * unguarded 32-bit product does).
   */
  function Load(file: Option<seq<byte>>): (r: Result<Image, LoadError>)
    ensures file.None? ==> r == Failure(FileNotFound)
    ensures r.Success? ==>
              r.value.imageSize == ImageSize(r.value.width, r.value.height) &&
              0 < r.value.imageSize < SizeLimit &&
              |r.value.pixels| == r.value.imageSize
  {
    match file
    case None => Failure(FileNotFound)
    case Some(f) =>
      match LoadHeader(f)
      case Failure(e) => Failure(e)
      case Success(h) => LoadPixels(f, h)
  }

  /** Everything after the header checks: size, then one read at the data offset. */
  function LoadPixels(f: seq<byte>, h: Header): (r: Result<Image, LoadError>)
    ensures r.Success? <==>
              0 < ImageSize(h.width, h.height) < SizeLimit &&
              h.dataOffset + ImageSize(h.width, h.height) <= |f|
    ensures r.Failure? ==>
              r.error == if 0 <= ImageSize(h.width, h.height) < SizeLimit then DataReadFailed else SizeOverflow
    ensures r.Success? ==>
              r.value.width == h.width && r.value.height == h.height &&
              r.value.imageSize == ImageSize(h.width, h.height) &&
              |r.value.pixels| == r.value.imageSize &&
              forall k: nat :: 3 * k + 2 < r.value.imageSize ==>
                PixelSwapped(r.value.pixels, f[h.dataOffset..h.dataOffset + r.value.imageSize], k)
  {
    var size := ImageSize(h.width, h.height);
    if !(0 <= size < SizeLimit) then Failure(SizeOverflow)
    else
      // fseek(file, bfOffBits, SEEK_SET) then one fread of `size` bytes
      var (data, _) := Read(SeekSet(Open(f), h.dataOffset), size);
      if data.None? then Failure(DataReadFailed)
      else
        SwapRedBlueAllPixels(data.value);
        Success(Image(h.width, h.height, size, SwapRedBlue(data.value)))
  }

  /**
   * A file loads exactly when its header is a one-plane 24-bit bitmap
   * header, width * height * 3 is a positive 32-bit size and the file holds
   * that many bytes from the data offset on.
   */
  lemma LoadSucceedsIff(f: seq<byte>)
    ensures Load(Some(f)).Success? <==>
              IsBmp24(f) &&
              0 < ImageSize(WidthOf(f), HeightOf(f)) < SizeLimit &&
              DataOffsetOf(f) + ImageSize(WidthOf(f), HeightOf(f)) <= |f|
  {
    HeaderAccepted(f);
  }

  /**
   * Which error a rejected file gets: the header's own error first, then
   * the size check, then the pixel read, which also fails for an empty
   * image because `fread` of zero bytes reports nothing read.
   */
  lemma LoadErrors(f: seq<byte>)
    ensures !IsBmp24(f) ==> Load(Some(f)) == Failure(LoadHeader(f).error)
    ensures IsBmp24(f) && !(0 <= ImageSize(WidthOf(f), HeightOf(f)) < SizeLimit) ==>
              Load(Some(f)) == Failure(SizeOverflow)
    ensures IsBmp24(f) && 0 <= ImageSize(WidthOf(f), HeightOf(f)) < SizeLimit &&
            (ImageSize(WidthOf(f), HeightOf(f)) == 0 || |f| < DataOffsetOf(f) + ImageSize(WidthOf(f), HeightOf(f))) ==>
              Load(Some(f)) == Failure(DataReadFailed)
  {
    HeaderAccepted(f);
  }

  /**
   * The loaded pixels are the `imageSize` bytes that start at the data
   * offset, with the first and third byte of every pixel exchanged.
   */
  lemma {:induction false} LoadedPixels(f: seq<byte>, k: nat)
    ensures Load(Some(f)).Success? ==> |f| >= 30
    ensures Load(Some(f)).Success? && 3 * k + 2 < Load(Some(f)).value.imageSize ==>
              var img := Load(Some(f)).value;
              var off := DataOffsetOf(f);
              img.width == WidthOf(f) && img.height == HeightOf(f) &&
              off + img.imageSize <= |f| &&
              img.pixels[3 * k] == f[off + 3 * k + 2] &&
              img.pixels[3 * k + 1] == f[off + 3 * k + 1] &&
              img.pixels[3 * k + 2] == f[off + 3 * k]
  {
    HeaderAccepted(f);
    if Load(Some(f)).Success? {
      var img := Load(Some(f)).value;
      var off := DataOffsetOf(f);
      if 3 * k + 2 < img.imageSize {
        SwapRedBluePixel(f[off..off + img.imageSize], k);
      }
    }
  }

  /** The host-side image record that `loadBMP` fills in. */
  class TextureImage {
    var width: int
    var height: int
    var imageSize: int
    var data: array<byte>

    /** The record describes `img`. */
    ghost predicate Holds(img: Image)
      reads this, data
    {
      width == img.width && height == img.height &&
      imageSize == img.imageSize && data[..] == img.pixels
    }

    constructor ()
      ensures width == 0 && height == 0 && imageSize == 0 && data.Length == 0
    {
      width, height, imageSize := 0, 0, 0;
      data := new byte[0];
    }
  }

  /**
   * `loadBMP(filename, texture)`: returns 0 and fills in `texture` exactly
   * when Load succeeds; the buffer is freshly allocated and converted in
   * place. On failure it returns -1 and the record is not to be read.
   */
  method LoadBmp(file: Option<seq<byte>>, texture: TextureImage) returns (status: int)
    modifies texture
    ensures status == (if Load(file).Success? then 0 else -1)
    ensures Load(file).Success? ==> fresh(texture.data) && texture.Holds(Load(file).value)
  {
    if file.None? {
      return -1;
    }
    var header := LoadHeader(file.value);
    if header.Failure? {
      return -1;
    }
    status := LoadPixelsInto(file.value, header.value, texture);
  }

  /**
   * The second half of `loadBMP`, once the header is accepted: store the
   * dimensions, compute the size, allocate, seek to the data offset, read
   * the pixels and convert them in place.
   */
  method LoadPixelsInto(f: seq<byte>, h: Header, texture: TextureImage) returns (status: int)
    modifies texture
    ensures status == (if LoadPixels(f, h).Success? then 0 else -1)
    ensures LoadPixels(f, h).Success? ==> fresh(texture.data) && texture.Holds(LoadPixels(f, h).value)
  {
    texture.width := h.width;
    texture.height := h.height;
    var size := ImageSize(h.width, h.height);
    if !(0 <= size < SizeLimit) {
      return -1;
    }
    var buffer := new byte[size];
    texture.data := buffer;
    var ok, _ := ReadInto(SeekSet(Open(f), h.dataOffset), buffer);
    if !ok {
      return -1;
    }
    SwapRedBlueInPlace(buffer);
    texture.imageSize := size;
    return 0;
  }

  // ---------------------------------------------------------------------
  // The image size as the C code computes it, and what the swap loop then does.

  /**
   * `biSizeImage = width * height * 3` with `int` operands stored into a
   * `uint32_t`: the product modulo 2^32 (two's-complement wrap-around).
   * It agrees with the mathematical product only when that fits.
   */
  function ImageSizeAsWritten(width: int, height: int): (size: nat)
    ensures size < SizeLimit
    ensures (size - ImageSize(width, height)) % SizeLimit == 0
    ensures 0 <= ImageSize(width, height) < SizeLimit ==> size == ImageSize(width, height)
  {
    ImageSize(width, height) % SizeLimit
  }

  /** The swap loop `for (i = 0; i < size; i += 3)` runs its body with this `i`. */
  predicate SwapVisits(size: nat, i: int)
  {
    0 <= i < size && i % 3 == 0
  }

  /**
   * Every iteration of the swap loop touches bytes `i` and `i + 2`; they
   * are all inside the buffer exactly when its size is a multiple of 3.
   */
  lemma SwapLoopInBoundsIff(size: nat)
    ensures (forall i :: SwapVisits(size, i) ==> i + 2 < size) <==> size % 3 == 0
  {
    if size % 3 != 0 {
      var last := size - size % 3;
      assert SwapVisits(size, last) && !(last + 2 < size);
    }
  }

  /**
   * A 24-bit bitmap of 37838 x 37838 pixels: the 32-bit size wraps to
   * 175436 bytes, which is not a whole number of pixels, so the last swap
   * iteration (i = 175434) exchanges byte 175434 with byte 175436, one past
   * the end of the buffer. The guarded Load rejects the same file.
   */
  lemma WrappedSizeOverrunsBuffer(f: seq<byte>)
    requires IsBmp24(f) && WidthOf(f) == 37838 && HeightOf(f) == 37838
    ensures ImageSizeAsWritten(WidthOf(f), HeightOf(f)) == 175436
    ensures SwapVisits(175436, 175434) && 175434 + 2 == 175436
    ensures !(forall i :: SwapVisits(ImageSizeAsWritten(WidthOf(f), HeightOf(f)), i) ==>
                           i + 2 < ImageSizeAsWritten(WidthOf(f), HeightOf(f)))
    ensures Load(Some(f)) == Failure(SizeOverflow)
  {
    assert 37838 * 37838 * 3 == 4295142732;
    SwapLoopInBoundsIff(175436);
    LoadErrors(f);
  }

  /** In the guarded loader every swap iteration stays inside the buffer. */
  lemma LoadedSwapInBounds(f: seq<byte>)
    ensures Load(Some(f)).Success? ==> Load(Some(f)).value.imageSize % 3 == 0
    ensures Load(Some(f)).Success? ==>
              forall i :: SwapVisits(Load(Some(f)).value.imageSize, i) ==> i + 2 < Load(Some(f)).value.imageSize
  {
    if Load(Some(f)).Success? {
      SwapLoopInBoundsIff(Load(Some(f)).value.imageSize);
    }
  }
}
