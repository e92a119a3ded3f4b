/** The `image.RGBA` raster the filters work on: a rectangle of the plane,
    which need not start at the origin, and a row-major grid of pixels over
    it. Reads outside the rectangle answer transparent black and writes
    outside it are ignored, as `image.RGBA.At` and `image.RGBA.Set` do. */
module Grid {
  import opened Pixels

  /** `image.Rectangle`: the half-open box [minX, maxX) x [minY, maxY). */
  datatype Rect = Rect(minX: int, minY: int, maxX: int, maxY: int) {
    function Dx(): int { maxX - minX }
    function Dy(): int { maxY - minY }

    predicate WellFormed() { minX <= maxX && minY <= maxY }

    predicate Contains(x: int, y: int) { minX <= x < maxX && minY <= y < maxY }
  }

  /** `image.RGBA`: `rows[j][i]` is the pixel at (minX + i, minY + j). */
  datatype Raster = Raster(rect: Rect, rows: seq<seq<Pixel>>) {
    predicate Valid()
    {
      && rect.WellFormed()
      && |rows| == rect.Dy()
      && forall j :: 0 <= j < |rows| ==> |rows[j]| == rect.Dx()
    }
  }

  /** `image.RGBA.At`: the stored pixel inside the rectangle, transparent
      black outside it. */
  function At(img: Raster, x: int, y: int): (p: Pixel)
    requires img.Valid()
    ensures !img.rect.Contains(x, y) ==> p == Transparent
  {
    if img.rect.Contains(x, y) then img.rows[y - img.rect.minY][x - img.rect.minX]
    else Transparent
  }

  /** `image.RGBA.Set`: the one pixel at (x, y) changes when it lies inside
      the rectangle, and nothing changes otherwise. */
  function Set(img: Raster, x: int, y: int, p: Pixel): (r: Raster)
    requires img.Valid()
    ensures r.Valid() && r.rect == img.rect
    ensures forall u, v :: At(r, u, v) == if u == x && v == y && img.rect.Contains(x, y) then p else At(img, u, v)
  {
    if img.rect.Contains(x, y) then
      var j, i := y - img.rect.minY, x - img.rect.minX;
      Raster(img.rect, img.rows[j := img.rows[j][i := p]])
    else
      img
  }

  /** Reading back a written point gives the written pixel inside the
      rectangle and transparent black outside it. */
  lemma SetThenAt(img: Raster, x: int, y: int, p: Pixel)
    requires img.Valid()
    ensures At(Set(img, x, y, p), x, y) == (if img.rect.Contains(x, y) then p else Transparent)
  {
  }

  /** The raster over `rect` whose pixel at (x, y) is f(x, y). */
  function Tabulate(rect: Rect, f: (int, int) -> Pixel): (r: Raster)
    requires rect.WellFormed()
    ensures r.Valid() && r.rect == rect
    ensures forall x, y :: rect.Contains(x, y) ==> At(r, x, y) == f(x, y)
  {
    Raster(rect, seq(rect.Dy(), j => seq(rect.Dx(), i => f(rect.minX + i, rect.minY + j))))
  }

  /** Two rasters over the same rectangle that agree at every point of it
      are the same raster. */
  lemma Extensionality(a: Raster, b: Raster)
    requires a.Valid() && b.Valid() && a.rect == b.rect
    requires forall x, y :: a.rect.Contains(x, y) ==> At(a, x, y) == At(b, x, y)
    ensures a == b
  {
    var rect := a.rect;
    forall j | 0 <= j < |a.rows|
      ensures a.rows[j] == b.rows[j]
    {
      forall i | 0 <= i < |a.rows[j]|
        ensures a.rows[j][i] == b.rows[j][i]
      {
        assert At(a, rect.minX + i, rect.minY + j) == At(b, rect.minX + i, rect.minY + j);
      }
    }
  }
}
