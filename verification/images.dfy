/** Decoded images. A decoded JPEG is an `H x W x C` array of 8-bit channel
    values; the model keeps, for each channel `c`, the band
    `image[:, :, c].reshape(-1)` (row-major), so every band holds exactly one
    value per pixel. */
module Images {

  type byte = x: int | 0 <= x < 256

  datatype Raster = Raster(pixelCount: nat, bands: seq<seq<byte>>)

  /** Every band has one value per pixel, as in a rectangular array. */
  predicate Rectangular(r: Raster) {
    forall c :: 0 <= c < |r.bands| ==> |r.bands[c]| == r.pixelCount
  }

  /** A decoded Wang JPEG has three channels (red, green, blue). */
  const ChannelCount: nat := 3

  type Image = r: Raster | Rectangular(r) && |r.bands| == ChannelCount witness Raster(0, [[], [], []])
}
