/** The order in which the encoder visits the pixels: the outer loop runs over
    `x` from 0 to the width, the inner loop over `y` from 0 to the height, so
    the k-th visited pixel is `(k / height, k % height)`. */
module VisitOrder {

  /** The step at which the encoder visits pixel `(x, y)` of a grid whose
      columns hold `height` pixels. */
  function Index(x: nat, y: nat, height: nat): nat {
    x * height + y
  }

  /** The pixel the encoder visits at step `k`. */
  function Position(k: nat, height: nat): (p: (nat, nat))
    requires height > 0
    ensures p.1 < height
    ensures Index(p.0, p.1, height) == k
  {
    (k / height, k % height)
  }

  lemma MulLeftMonotone(a: nat, b: nat, h: nat)
    requires a <= b
    ensures a * h <= b * h
  {
    assert b * h == a * h + (b - a) * h;
  }

  /** The first pixel of a column is visited right after the last pixel of
      the column before it. */
  lemma NextColumn(x: nat, height: nat)
    ensures Index(x + 1, 0, height) == Index(x, height, height)
  {
    assert (x + 1) * height == x * height + height;
  }

  /** Every pixel of the grid is visited before step `width * height`. */
  lemma IndexInGrid(x: nat, y: nat, width: nat, height: nat)
    requires x < width && y < height
    ensures Index(x, y, height) < width * height
  {
    MulLeftMonotone(x + 1, width, height);
    assert (x + 1) * height == x * height + height;
  }

  /** Every step below `width * height` visits a pixel of the grid. */
  lemma PositionInGrid(k: nat, width: nat, height: nat)
    requires height > 0 && k < width * height
    ensures Position(k, height).0 < width
  {
    var p := Position(k, height);
    if p.0 >= width {
      MulLeftMonotone(width, p.0, height);
      assert false;
    }
  }

  /** The visit step determines the pixel: `Position` inverts `Index`. */
  lemma PositionOfIndex(x: nat, y: nat, height: nat)
    requires y < height
    ensures Position(Index(x, y, height), height) == (x, y)
  {
    var p := Position(Index(x, y, height), height);
    IndexOrder(x, y, p.0, p.1, height);
    IndexOrder(p.0, p.1, x, y, height);
  }

  /** Visiting is x-major: one pixel is visited before another exactly when
      its column comes first, or the columns agree and its row comes first. */
  lemma IndexOrder(x: nat, y: nat, x': nat, y': nat, height: nat)
    requires y < height && y' < height
    ensures Index(x, y, height) < Index(x', y', height) <==> x < x' || (x == x' && y < y')
  {
    if x < x' {
      MulLeftMonotone(x + 1, x', height);
      assert (x + 1) * height == x * height + height;
    } else if x' < x {
      MulLeftMonotone(x' + 1, x, height);
      assert (x' + 1) * height == x' * height + height;
    }
  }

  /** No two pixels of the grid share a visit step. */
  lemma IndexInjective(x: nat, y: nat, x': nat, y': nat, height: nat)
    requires y < height && y' < height
    requires Index(x, y, height) == Index(x', y', height)
    ensures x == x' && y == y'
  {
    IndexOrder(x, y, x', y', height);
    IndexOrder(x', y', x, y, height);
  }
}
