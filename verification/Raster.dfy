/** The prepared grayscale raster and the shapes found in it (layout-recognizer.ts, raster-components.ts). */
module Raster {
  import opened Outcomes

  type Pixel = v: int | 0 <= v < 256

  const MAX_EDGE := 1600
  const MAX_PIXELS := 1600 * 1600
  const MAX_COMPONENTS := 20000
  const MAX_CANDIDATES := 10000
  const MAX_FIT_PIXELS := 10000000

  datatype ErrorCode = InvalidRaster | UnsupportedContrast | SourceTooComplex

  datatype Source = Source(data: seq<Pixel>, width: int, height: int, channels: int) {

    predicate Valid() {
      && 1 <= width <= MAX_EDGE && 1 <= height <= MAX_EDGE
      && width * height <= MAX_PIXELS
      && channels == 1
      && |data| == width * height
    }
  }

  /** The pixel limit adds nothing to the limit of the edges. */
  lemma ValidMeans(source: Source)
    ensures source.Valid() <==> 1 <= source.width <= 1600 && 1 <= source.height <= 1600 && source.channels == 1
                                && |source.data| == source.width * source.height
  {
    if 1 <= source.width <= 1600 && 1 <= source.height <= 1600 {
      assert source.width * source.height <= 1600 * source.height;
    }
  }

  datatype Shape = Round | Rectangle | Oval | Circle

  datatype ShapeCandidate = ShapeCandidate(
    id: string, x: real, y: real, width: real, height: real, shape: Option<Shape>, quality: real)

  function MaxReal(a: real, b: real): real {
    if a >= b then a else b
  }

  function AbsReal(a: real): real {
    if a < 0.0 then -a else a
  }
}
