/** The result record every call returns (`fastimage_image_t`) and the
    format tags it carries (`enum fastimage_image_format`). */
module Image {
  import opened Source

  /** The ten tags, in declaration order; `Error` is tag 0, so a zeroed
      record says `Error`. */
  datatype Format = Error | Unknown | Bmp | Tga | Pcx | Png | Gif | WebP | Heif | Jpg

  /** The record: `width` and `height` are `size_t`, the other three
      counts are `unsigned int`. */
  datatype ImageInfo = ImageInfo(
    format: Format,
    width: nat,
    height: nat,
    channels: nat,
    bitsPerPixel: nat,
    palette: nat)

  /** The record after `memset(&image, 0, sizeof image)`. */
  const Blank := ImageInfo(Error, 0, 0, 0, 0, 0)

  /** Every field fits the C type that holds it. */
  predicate InRange(img: ImageInfo)
  {
    && img.width < 0x1_0000_0000_0000_0000
    && img.height < 0x1_0000_0000_0000_0000
    && img.channels < 0x1_0000_0000
    && img.bitsPerPixel < 0x1_0000_0000
    && img.palette < 0x1_0000_0000
  }

  /** The record a decoder leaves behind, and the source's state afterwards. */
  datatype Decoded = Decoded(image: ImageInfo, next: Cursor)

  /** `image->format = fastimage_error;` with every other field as it was. */
  function Fail(img: ImageInfo, at: Cursor): (r: Decoded)
    ensures r.image.format == Error && r.next == at
    ensures r.image.(format := img.format) == img
  {
    Decoded(img.(format := Error), at)
  }
}
