/** Pixels of the layer images and of the output canvas, and what is known
    of the image library's masked paste. */
module Raster {
  /** One 8-bit sample. */
  type Byte = x: int | 0 <= x < 256

  /** An RGBA pixel; its alpha sample `a` is the mask a layer is pasted with. */
  datatype Pixel = Pixel(r: Byte, g: Byte, b: Byte, a: Byte)

  /** Every pixel of an image created without a fill colour (all samples zero). */
  const Blank := Pixel(0, 0, 0, 0)

  /** A masked paste step: (source pixel, destination pixel, mask value) to the new destination pixel. */
  type Blend = (Pixel, Pixel, Byte) -> Pixel

  /** The only facts relied on about the library's blend: a full mask copies
      the source pixel, a zero mask keeps the destination pixel. */
  ghost predicate OverLaw(blend: Blend) {
    forall src: Pixel, dst: Pixel :: blend(src, dst, 255) == src && blend(src, dst, 0) == dst
  }
}
