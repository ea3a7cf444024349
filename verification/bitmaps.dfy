/** A bitmap as a rectangular grid of pixels indexed `[x][y]`. */
module Bitmaps {
  import opened Pixels

  /** `columns[x][y]` is the pixel at column `x`, row `y`. The encoder's loop
      variable `row` runs over `x` and its `col` over `y`, so its "row" is
      this model's column index. */
  datatype Bitmap = Bitmap(width: nat, height: nat, columns: seq<seq<Pixel>>) {

    /** The grid has `width` columns of `height` pixels each. */
    predicate Valid() {
      && |columns| == width
      && forall x | 0 <= x < |columns| :: |columns[x]| == height
    }

    /** The number of pixels, which bounds how many characters fit. */
    function Capacity(): nat {
      width * height
    }

    predicate InGrid(x: int, y: int) {
      0 <= x < width && 0 <= y < height
    }

    function GetPixel(x: nat, y: nat): Pixel
      requires Valid() && InGrid(x, y)
    {
      columns[x][y]
    }

    /** Replaces one pixel; the dimensions and every other pixel are kept. */
    function SetPixel(x: nat, y: nat, p: Pixel): (r: Bitmap)
      requires Valid() && InGrid(x, y)
      ensures r.Valid() && r.width == width && r.height == height
      ensures r.GetPixel(x, y) == p
      ensures forall x', y' | InGrid(x', y') && (x', y') != (x, y) ::
                r.GetPixel(x', y') == GetPixel(x', y')
    {
      Bitmap(width, height, columns[x := columns[x][y := p]])
    }
  }

  /** Two valid bitmaps of the same size that agree on every pixel are equal. */
  lemma {:induction false} SameBitmap(a: Bitmap, b: Bitmap)
    requires a.Valid() && b.Valid()
    requires a.width == b.width && a.height == b.height
    requires forall x, y | a.InGrid(x, y) :: a.GetPixel(x, y) == b.GetPixel(x, y)
    ensures a == b
  {
    forall x | 0 <= x < a.width
      ensures a.columns[x] == b.columns[x]
    {
      assert forall y | 0 <= y < a.height :: a.columns[x][y] == a.GetPixel(x, y);
    }
  }
}
