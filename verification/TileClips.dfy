/**
  Cutting a frame into tiles (`compute_tile_clips` in src/Glamor/HWComposeTileFrameGenerator.cc):
  full tiles, a last row and a last column of smaller ones, and the corner.
 */
module TileClips {
  import opened Bytes
  import opened Options

  datatype Rect = Rect(x: int, y: int, width: int, height: int)

  predicate Contains(r: Rect, px: int, py: int)
  {
    r.x <= px < r.x + r.width && r.y <= py < r.y + r.height
  }

  /** So many tiles of `size` cover `extent`. */
  function Tiles(extent: int, size: int): (n: nat)
    requires extent > 0 && size > 0
    ensures n >= 1
  {
    if extent % size == 0 then extent / size else extent / size + 1
  }

  /** A frame and the size of its tiles; the code checks that all are positive. */
  datatype Frame = Frame(width: int, height: int, tileWidth: int, tileHeight: int)

  predicate Positive(f: Frame)
  {
    f.width > 0 && f.height > 0 && f.tileWidth > 0 && f.tileHeight > 0
  }

  function Columns(f: Frame): nat
    requires Positive(f)
  {
    Tiles(f.width, f.tileWidth)
  }

  function Rows(f: Frame): nat
    requires Positive(f)
  {
    Tiles(f.height, f.tileHeight)
  }

  function Min(a: int, b: int): int { if a < b then a else b }

  /** The tile in column x and row y: as large as a tile is, but no larger than the frame. */
  function TileAt(f: Frame, x: nat, y: nat): Rect
  {
    var left, top := x * f.tileWidth, y * f.tileHeight;
    Rect(left, top, Min(f.tileWidth, f.width - left), Min(f.tileHeight, f.height - top))
  }

  /** Tiles are stored row by row. */
  function Slot(columns: nat, x: nat, y: nat): nat { y * columns + x }

  lemma SlotInRange(columns: nat, rows: nat, x: nat, y: nat)
    requires x < columns && y < rows
    ensures Slot(columns, x, y) < columns * rows
    ensures Slot(columns, x, y) / columns == y && Slot(columns, x, y) % columns == x
  {
    Product(columns, y + 1, rows);
    DivisionIs(y * columns + x, columns, y);
  }

  lemma Product(d: nat, a: nat, b: nat)
    ensures a <= b ==> d * a <= d * b
  {
  }

  /** A quotient is known by its bounds. */
  lemma DivisionIs(n: nat, d: nat, q: nat)
    requires d > 0 && q * d <= n < q * d + d
    ensures n / d == q && n % d == n - q * d
  {
    var k := n / d;
    assert n == k * d + n % d;
    Product(d, k + 1, q);
    Product(d, q + 1, k);
  }

  // ---------- filling the vector ----------

  predicate InGrid(f: Frame, x: nat, y: nat)
    requires Positive(f)
  {
    x < Columns(f) && y < Rows(f)
  }

  /** The tiles written so far, in order: no slot twice, and each with its tile. */
  ghost predicate Holds(f: Frame, slots: seq<Rect>, writes: seq<(nat, nat)>)
    requires Positive(f)
  {
    && |slots| == Columns(f) * Rows(f)
    && (forall i, j :: 0 <= i < j < |writes| ==> writes[i] != writes[j])
    && forall k :: 0 <= k < |writes| ==> IsWritten(f, slots, writes[k].0, writes[k].1)
  }

  ghost predicate IsWritten(f: Frame, slots: seq<Rect>, x: nat, y: nat)
    requires Positive(f)
  {
    InGrid(f, x, y) && Slot(Columns(f), x, y) < |slots| && slots[Slot(Columns(f), x, y)] == TileAt(f, x, y)
  }

  lemma OtherSlot(f: Frame, slots: seq<Rect>, x: nat, y: nat, x': nat, y': nat, rect: Rect)
    requires Positive(f) && InGrid(f, x, y) && |slots| == Columns(f) * Rows(f)
    requires IsWritten(f, slots, x', y') && (x, y) != (x', y') && Slot(Columns(f), x, y) < |slots|
    ensures IsWritten(f, slots[Slot(Columns(f), x, y) := rect], x', y')
  {
    SlotInRange(Columns(f), Rows(f), x, y);
    SlotInRange(Columns(f), Rows(f), x', y');
  }

  lemma WriteHolds(f: Frame, slots: seq<Rect>, x: nat, y: nat, writes: seq<(nat, nat)>)
    requires Positive(f) && Holds(f, slots, writes) && InGrid(f, x, y) && (x, y) !in writes
    ensures Slot(Columns(f), x, y) < |slots|
    ensures Holds(f, slots[Slot(Columns(f), x, y) := TileAt(f, x, y)], writes + [(x, y)])
  {
    SlotInRange(Columns(f), Rows(f), x, y);
    var slots' := slots[Slot(Columns(f), x, y) := TileAt(f, x, y)];
    forall k | 0 <= k < |writes| ensures IsWritten(f, slots', writes[k].0, writes[k].1) {
      OtherSlot(f, slots, x, y, writes[k].0, writes[k].1, TileAt(f, x, y));
    }
    hide Slot, TileAt;
    assert IsWritten(f, slots', x, y);
  }

  lemma NothingWritten(f: Frame, slots: seq<Rect>)
    requires Positive(f) && |slots| == Columns(f) * Rows(f)
    ensures Holds(f, slots, [])
  {
  }

  lemma Extent(extent: int, size: int)
    requires extent > 0 && size > 0
    ensures var n := extent / size;
      && n >= 0 && extent - n * size == extent % size && 0 <= extent % size < size
      && Tiles(extent, size) == n + if extent - n * size == 0 then 0 else 1
  {
  }

  lemma GridOf(f: Frame, columns: nat, rows: nat)
    requires Positive(f) && columns == Columns(f) && rows == Rows(f)
    ensures forall x: nat, y: nat :: InGrid(f, x, y) <==> x < columns && y < rows
  {
  }

  /** How much of the tile number `i` there is. */
  lemma SizeAt(extent: int, size: int, i: nat)
    requires extent > 0 && size > 0 && i <= extent / size
    ensures Min(size, extent - i * size) == if i < extent / size then size else extent - i * size
  {
    assert extent == extent / size * size + extent % size;
    Product(size, i + 1, extent / size);
  }

  lemma TileIs(f: Frame, x: nat, y: nat, width: int, height: int)
    requires Positive(f) && x <= f.width / f.tileWidth && y <= f.height / f.tileHeight
    requires width == if x < f.width / f.tileWidth then f.tileWidth else f.width - x * f.tileWidth
    requires height == if y < f.height / f.tileHeight then f.tileHeight else f.height - y * f.tileHeight
    ensures TileAt(f, x, y) == Rect(x * f.tileWidth, y * f.tileHeight, width, height)
  {
    SizeAt(f.width, f.tileWidth, x);
    SizeAt(f.height, f.tileHeight, y);
  }

  /**
    The code. A product that does not fit an int is an overflow, for which there is no result.
    `writes` tells which tiles were set, in order.
   */
  method ComputeTileClips(f: Frame) returns (result: Option<array<Rect>>, ghost writes: seq<(nat, nat)>)
    requires Positive(f)
    ensures result.None? <==> Columns(f) * Rows(f) > INT_MAX || (f.width % f.tileWidth) * (f.height % f.tileHeight) > INT_MAX
    ensures result.Some? ==> fresh(result.value) && Holds(f, result.value[..], writes)
    ensures result.Some? ==> forall x: nat, y: nat :: InGrid(f, x, y) <==> (x, y) in writes
    ensures result.Some? ==> IsTiling(f, result.value[..])
  {
    hide Holds, IsWritten, IsTiling, InGrid, TileAt, Tiles;
    writes := [];
    var xTiles, yTiles := f.width / f.tileWidth, f.height / f.tileHeight;
    var xPadding, yPadding := f.width - xTiles * f.tileWidth, f.height - yTiles * f.tileHeight;
    Extent(f.width, f.tileWidth);
    Extent(f.height, f.tileHeight);
    var xActualTiles := xTiles + if xPadding == 0 then 0 else 1;
    var yActualTiles := yTiles + if yPadding == 0 then 0 else 1;
    if xActualTiles * yActualTiles > INT_MAX || xPadding * yPadding > INT_MAX { return None, writes; }
    var slots := new Rect[xActualTiles * yActualTiles](_ => Rect(0, 0, 0, 0));
    result := Some(slots);
    GridOf(f, xActualTiles, yActualTiles);
    NothingWritten(f, slots[..]);
    for ty := 0 to yTiles
      invariant Holds(f, slots[..], writes)
      invariant forall x: nat, y: nat :: (x, y) in writes <==> x < xTiles && y < ty
    {
      for tx := 0 to xTiles
        invariant Holds(f, slots[..], writes)
        invariant forall x: nat, y: nat :: (x, y) in writes <==> x < xTiles && (y < ty || (y == ty && x < tx))
      {
        TileIs(f, tx, ty, f.tileWidth, f.tileHeight);
        writes := SetTile(f, slots, tx, ty, Rect(tx * f.tileWidth, ty * f.tileHeight, f.tileWidth, f.tileHeight), writes);
      }
    }
    if yPadding > 0 {
      for tx := 0 to xTiles
        invariant Holds(f, slots[..], writes)
        invariant forall x: nat, y: nat :: (x, y) in writes <==> x < xTiles && (y < yTiles || (y == yTiles && x < tx))
      {
        TileIs(f, tx, yTiles, f.tileWidth, yPadding);
        writes := SetTile(f, slots, tx, yTiles, Rect(tx * f.tileWidth, yTiles * f.tileHeight, f.tileWidth, yPadding), writes);
      }
    }
    if xPadding > 0 {
      for ty := 0 to yTiles
        invariant Holds(f, slots[..], writes)
        invariant forall x: nat, y: nat :: (x, y) in writes <==> (x < xTiles && y < yActualTiles) || (x == xTiles && y < ty)
      {
        TileIs(f, xTiles, ty, xPadding, f.tileHeight);
        writes := SetTile(f, slots, xTiles, ty, Rect(xTiles * f.tileWidth, ty * f.tileHeight, xPadding, f.tileHeight), writes);
      }
    }
    CornerIff(xPadding, yPadding);
    if xPadding * yPadding > 0 {
      TileIs(f, xTiles, yTiles, xPadding, yPadding);
      writes := SetTile(f, slots, xTiles, yTiles, Rect(xTiles * f.tileWidth, yTiles * f.tileHeight, xPadding, yPadding), writes);
    }
    AllWrittenIsTiling(f, slots[..], writes);
  }

  lemma CornerIff(a: nat, b: nat)
    ensures a * b > 0 <==> a > 0 && b > 0
  {
  }

  /** Sets a slot that has not been set before. */
  method SetTile(f: Frame, slots: array<Rect>, x: nat, y: nat, rect: Rect, ghost writes: seq<(nat, nat)>)
    returns (ghost writes': seq<(nat, nat)>)
    requires Positive(f) && Holds(f, slots[..], writes)
    requires InGrid(f, x, y) && (x, y) !in writes && rect == TileAt(f, x, y)
    modifies slots
    ensures Holds(f, slots[..], writes') && writes' == writes + [(x, y)]
  {
    WriteHolds(f, slots[..], x, y, writes);
    slots[y * Columns(f) + x] := rect;
    writes' := writes + [(x, y)];
  }

  // ---------- the tiles partition the frame ----------

  predicate InFrame(f: Frame, px: int, py: int) { 0 <= px < f.width && 0 <= py < f.height }

  lemma InOneDimension(extent: int, size: int, i: nat, p: int)
    requires extent > 0 && size > 0 && i < Tiles(extent, size)
    ensures i * size <= p < i * size + Min(size, extent - i * size) <==> 0 <= p < extent && p / size == i
  {
    if 0 <= p < extent && p / size == i {
      assert p == i * size + p % size;
    } else if i * size <= p < i * size + Min(size, extent - i * size) {
      assert i * size >= 0;
      DivisionIs(p, size, i);
    }
  }

  /** A pixel of the frame is in the tile of its column and row, and in no other. */
  lemma PixelInTile(f: Frame, x: nat, y: nat, px: int, py: int)
    requires Positive(f) && InGrid(f, x, y)
    ensures Contains(TileAt(f, x, y), px, py) <==> InFrame(f, px, py) && px / f.tileWidth == x && py / f.tileHeight == y
  {
    InOneDimension(f.width, f.tileWidth, x, px);
    InOneDimension(f.height, f.tileHeight, y, py);
  }

  lemma TileOfPixel(extent: int, size: int, p: int)
    requires 0 <= p < extent && size > 0
    ensures 0 <= p / size < Tiles(extent, size)
  {
    TilesCover(extent, size);
    QuotientBelow(p, size, Tiles(extent, size));
  }

  lemma TilesCover(extent: int, size: int)
    requires extent > 0 && size > 0
    ensures extent <= Tiles(extent, size) * size
  {
    assert extent == extent / size * size + extent % size;
    assert (extent / size + 1) * size == extent / size * size + size;
  }

  lemma QuotientBelow(p: nat, size: nat, n: nat)
    requires size > 0 && p < n * size
    ensures p / size < n
  {
    assert p == p / size * size + p % size;
    if n <= p / size { Product(size, n, p / size); }
  }

  /** Every slot holds the tile of its column and row. */
  ghost predicate IsTiling(f: Frame, slots: seq<Rect>)
    requires Positive(f)
  {
    |slots| == Columns(f) * Rows(f) && forall x: nat, y: nat :: InGrid(f, x, y) ==> IsWritten(f, slots, x, y)
  }

  lemma AllWrittenIsTiling(f: Frame, slots: seq<Rect>, writes: seq<(nat, nat)>)
    requires Positive(f) && Holds(f, slots, writes)
    requires forall x: nat, y: nat :: InGrid(f, x, y) <==> (x, y) in writes
    ensures IsTiling(f, slots)
  {
    forall x: nat, y: nat | InGrid(f, x, y) ensures IsWritten(f, slots, x, y) {
      var k :| 0 <= k < |writes| && writes[k] == (x, y);
    }
  }

  lemma SlotsTile(f: Frame, slots: seq<Rect>, k: nat) returns (x: nat, y: nat)
    requires Positive(f) && IsTiling(f, slots) && k < |slots|
    ensures InGrid(f, x, y) && k == Slot(Columns(f), x, y) && slots[k] == TileAt(f, x, y)
  {
    x, y := k % Columns(f), k / Columns(f);
    assert k == y * Columns(f) + x;
    Product(Columns(f), Rows(f), y);
    assert IsWritten(f, slots, x, y);
  }

  /** Every pixel of the frame lies in exactly one tile, and no tile has a pixel outside the frame. */
  lemma TilesPartitionFrame(f: Frame, slots: seq<Rect>)
    requires Positive(f) && IsTiling(f, slots)
    ensures forall px: int, py: int :: InFrame(f, px, py) <==> exists k :: 0 <= k < |slots| && Contains(slots[k], px, py)
    ensures forall j, k, px: int, py: int ::
      0 <= j < |slots| && 0 <= k < |slots| && Contains(slots[j], px, py) && Contains(slots[k], px, py) ==> j == k
  {
    forall px: int, py: int
      ensures InFrame(f, px, py) <==> exists k :: 0 <= k < |slots| && Contains(slots[k], px, py)
    {
      if InFrame(f, px, py) {
        var k := CoveringSlot(f, slots, px, py);
        assert Contains(slots[k], px, py);
      }
      forall k | 0 <= k < |slots| && Contains(slots[k], px, py) ensures InFrame(f, px, py) {
        var x, y := SlotsTile(f, slots, k);
        PixelInTile(f, x, y, px, py);
      }
    }
    forall j, k, px: int, py: int |
      0 <= j < |slots| && 0 <= k < |slots| && Contains(slots[j], px, py) && Contains(slots[k], px, py)
      ensures j == k
    {
      OnlyOneSlot(f, slots, j, k, px, py);
    }
  }

  lemma CoveringSlot(f: Frame, slots: seq<Rect>, px: int, py: int) returns (k: nat)
    requires Positive(f) && IsTiling(f, slots) && InFrame(f, px, py)
    ensures k < |slots| && Contains(slots[k], px, py)
  {
    TileOfPixel(f.width, f.tileWidth, px);
    TileOfPixel(f.height, f.tileHeight, py);
    var x, y := px / f.tileWidth, py / f.tileHeight;
    k := Slot(Columns(f), x, y);
    assert IsWritten(f, slots, x, y);
    PixelInTile(f, x, y, px, py);
  }

  lemma OnlyOneSlot(f: Frame, slots: seq<Rect>, j: nat, k: nat, px: int, py: int)
    requires Positive(f) && IsTiling(f, slots) && j < |slots| && k < |slots|
    requires Contains(slots[j], px, py) && Contains(slots[k], px, py)
    ensures j == k
  {
    var x, y := SlotsTile(f, slots, j);
    var x', y' := SlotsTile(f, slots, k);
    PixelInTile(f, x, y, px, py);
    PixelInTile(f, x', y', px, py);
  }

  lemma TilesRoundUp(extent: int, size: int)
    requires extent > 0 && size > 0
    ensures Tiles(extent, size) == (extent + size - 1) / size
  {
    assert extent == extent / size * size + extent % size;
    var n := Tiles(extent, size);
    assert n * size == extent / size * size + if extent % size == 0 then 0 else size;
    DivisionIs(extent + size - 1, size, n);
  }

  /** The tiles are stored row by row: the pixel's row of tiles and column of tiles give the only slot it is in. */
  lemma SlotOfPixel(f: Frame, slots: seq<Rect>, k: nat, px: int, py: int)
    requires Positive(f) && IsTiling(f, slots) && k < |slots|
    ensures |slots| == (f.width + f.tileWidth - 1) / f.tileWidth * ((f.height + f.tileHeight - 1) / f.tileHeight)
    ensures Contains(slots[k], px, py) <==>
      InFrame(f, px, py) && k == py / f.tileHeight * ((f.width + f.tileWidth - 1) / f.tileWidth) + px / f.tileWidth
  {
    TilesRoundUp(f.width, f.tileWidth);
    TilesRoundUp(f.height, f.tileHeight);
    var x, y := SlotsTile(f, slots, k);
    PixelInTile(f, x, y, px, py);
    if InFrame(f, px, py) {
      TileOfPixel(f.width, f.tileWidth, px);
      TileOfPixel(f.height, f.tileHeight, py);
      SlotInRange(Columns(f), Rows(f), x, y);
      SlotInRange(Columns(f), Rows(f), px / f.tileWidth, py / f.tileHeight);
    }
  }

  /** Frames of at most 2^31 - 1 pixels never overflow. */
  lemma SmallFramesDoNotOverflow(f: Frame)
    requires Positive(f) && f.width * f.height <= INT_MAX
    ensures Columns(f) * Rows(f) <= INT_MAX && (f.width % f.tileWidth) * (f.height % f.tileHeight) <= INT_MAX
  {
    TilesAtMost(f.width, f.tileWidth);
    TilesAtMost(f.height, f.tileHeight);
    ProductAtMost(Columns(f), Rows(f), f.width, f.height);
    ProductAtMost(f.width % f.tileWidth, f.height % f.tileHeight, f.width, f.height);
  }

  lemma TilesAtMost(extent: int, size: int)
    requires extent > 0 && size > 0
    ensures Tiles(extent, size) <= extent && 0 <= extent % size <= extent
  {
    assert extent == extent / size * size + extent % size;
    if extent / size > 0 && size > 1 { Product(extent / size, 2, size); }
  }

  lemma ProductAtMost(a: nat, b: nat, c: nat, d: nat)
    requires a <= c && b <= d
    ensures a * b <= c * d
  {
    Product(a, b, d);
    Product(d, a, c);
  }
}
