/** What the raster algorithms draw. */
module Pixels {

  datatype Pixel = Pixel(x: int, y: int)
}
