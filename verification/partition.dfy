/**
 * Splitting the texture into work. Both CPU backends cut each axis into
 * parts with the same `get_part` rule (the first part absorbs the
 * remainder) and place the parts by running sums, giving a 10 x 10 grid of
 * tiles; the two raylib drivers instead give each of eight workers a band
 * of `height / 8` rows. Pixels are addressed row-major, `y * width + x`.
 */
module Partition {
  import opened Arith

  /** `kChunkWidth`: the number of tile rows (it bounds `ry`). */
  const ChunkRows: nat := 10
  /** `kChunkHeight`: the number of tile columns (it bounds `rx`). */
  const ChunkCols: nat := 10

  /**
   * `get_part(full_size, parts_count, part_index)`: every part gets
   * `full / parts`, and part 0 also gets the remainder when there is more
   * than one part.
   */
  function GetPart(fullSize: nat, partsCount: nat, partIndex: nat): nat
    requires partsCount > 0
  {
    var minPart := fullSize / partsCount;
    if partIndex == 0 && partsCount > 1 then minPart + fullSize % partsCount else minPart
  }

  /** The running sum `location` before part `k`: the sizes of parts `0 .. k-1`. */
  function PartOrigin(fullSize: nat, partsCount: nat, k: nat): nat
    requires partsCount > 0
  {
    if k == 0 then 0 else PartOrigin(fullSize, partsCount, k - 1) + GetPart(fullSize, partsCount, k - 1)
  }

  /**
   * The origin of part `k >= 1` is `k * (full / parts) + full % parts`:
   * the remainder is paid once, by part 0.
   */
  lemma {:induction false} PartOriginClosedForm(fullSize: nat, partsCount: nat, k: nat)
    requires partsCount > 0
    ensures PartOrigin(fullSize, partsCount, k)
            == k * (fullSize / partsCount) + (if k > 0 then fullSize % partsCount else 0)
  {
    if k > 0 {
      PartOriginClosedForm(fullSize, partsCount, k - 1);
      if partsCount == 1 {
        assert fullSize % partsCount == 0;
      }
    }
  }

  /** The part sizes add up to the full size: the parts cover the axis exactly. */
  lemma PartsSumToFull(fullSize: nat, partsCount: nat)
    requires partsCount > 0
    ensures PartOrigin(fullSize, partsCount, partsCount) == fullSize
  {
    PartOriginClosedForm(fullSize, partsCount, partsCount);
    DivMod(fullSize, partsCount);
  }

  /** Part 0 holds the remainder; every other part is the plain quotient. */
  lemma PartSizes(fullSize: nat, partsCount: nat, k: nat)
    requires 0 < k < partsCount
    ensures GetPart(fullSize, partsCount, 0) == fullSize / partsCount + fullSize % partsCount
    ensures GetPart(fullSize, partsCount, k) == fullSize / partsCount
  {
  }

  lemma {:induction false} PartOriginMonotone(fullSize: nat, partsCount: nat, j: nat, k: nat)
    requires partsCount > 0 && j <= k
    ensures PartOrigin(fullSize, partsCount, j) <= PartOrigin(fullSize, partsCount, k)
    decreases k - j
  {
    if j < k {
      PartOriginMonotone(fullSize, partsCount, j, k - 1);
    }
  }

  predicate InPart(fullSize: nat, partsCount: nat, k: nat, c: nat)
    requires partsCount > 0
  {
    PartOrigin(fullSize, partsCount, k) <= c < PartOrigin(fullSize, partsCount, k + 1)
  }

  /** The part a coordinate falls in. */
  function PartContaining(fullSize: nat, partsCount: nat, c: nat): (k: nat)
    requires partsCount > 0 && c < fullSize
    ensures k < partsCount
    ensures InPart(fullSize, partsCount, k, c)
  {
    var q := fullSize / partsCount;
    var r := fullSize % partsCount;
    DivMod(fullSize, partsCount);
    PartOriginClosedForm(fullSize, partsCount, 1);
    if c < q + r then
      assert partsCount > 1 || c < PartOrigin(fullSize, partsCount, 1);
      0
    else
      assert q > 0;
      var k := (c - r) / q;
      DivMod(c - r, q);
      DivBelow(c - r, q, partsCount);
      assert k >= 1 by {
        DivMonotone(q, c - r, q);
        DivExact(1, q);
      }
      PartOriginClosedForm(fullSize, partsCount, k);
      PartOriginClosedForm(fullSize, partsCount, k + 1);
      k
  }

  /** A coordinate lies in exactly one part. */
  lemma PartUnique(fullSize: nat, partsCount: nat, c: nat, j: nat, k: nat)
    requires partsCount > 0
    requires InPart(fullSize, partsCount, j, c) && InPart(fullSize, partsCount, k, c)
    ensures j == k
  {
    if j < k {
      PartOriginMonotone(fullSize, partsCount, j + 1, k);
    } else if k < j {
      PartOriginMonotone(fullSize, partsCount, k + 1, j);
    }
  }

  // ---------------------------------------------------------------------
  // The 10 x 10 tile grid
  // ---------------------------------------------------------------------

  /** `region_screen_location` and `region_screen_size` of one task. */
  datatype Tile = Tile(x: nat, y: nat, width: nat, height: nat)

  predicate TileContains(t: Tile, px: nat, py: nat)
  {
    t.x <= px < t.x + t.width && t.y <= py < t.y + t.height
  }

  /** The tile in row `ry` and column `rx` of a `w x h` texture. */
  function TileAt(w: nat, h: nat, ry: nat, rx: nat): Tile
  {
    Tile(PartOrigin(w, ChunkCols, rx), PartOrigin(h, ChunkRows, ry),
         GetPart(w, ChunkCols, rx), GetPart(h, ChunkRows, ry))
  }

  /** The grid in generation order: row-major, index `ry * 10 + rx`. */
  function TileGrid(w: nat, h: nat): (tiles: seq<Tile>)
    ensures |tiles| == ChunkRows * ChunkCols
  {
    seq(ChunkRows * ChunkCols, i requires 0 <= i => TileAt(w, h, i / ChunkCols, i % ChunkCols))
  }

  /**
   * The nested loops of `StartNewFractalFrame` (and of the region dispatch
   * of gpu_fractal): `location_x` and `location_y` accumulate the part
   * sizes, and tile `(ry, rx)` lands at index `ry * 10 + rx`.
   */
  method MakeTileGrid(w: nat, h: nat) returns (tiles: seq<Tile>)
    ensures tiles == TileGrid(w, h)
    ensures forall ry, rx :: 0 <= ry < ChunkRows && 0 <= rx < ChunkCols ==>
      tiles[ry * ChunkCols + rx] == TileAt(w, h, ry, rx)
  {
    tiles := [];
    var locationY := 0;
    var ry := 0;
    while ry != ChunkRows
      invariant 0 <= ry <= ChunkRows
      invariant locationY == PartOrigin(h, ChunkRows, ry)
      invariant |tiles| == ry * ChunkCols
      invariant forall i :: 0 <= i < |tiles| ==> tiles[i] == TileAt(w, h, i / ChunkCols, i % ChunkCols)
    {
      var locationX := 0;
      var regionHeight := GetPart(h, ChunkRows, ry);
      var rx := 0;
      while rx != ChunkCols
        invariant 0 <= rx <= ChunkCols
        invariant locationX == PartOrigin(w, ChunkCols, rx)
        invariant |tiles| == ry * ChunkCols + rx
        invariant forall i :: 0 <= i < |tiles| ==> tiles[i] == TileAt(w, h, i / ChunkCols, i % ChunkCols)
      {
        var regionWidth := GetPart(w, ChunkCols, rx);
        tiles := tiles + [Tile(locationX, locationY, regionWidth, regionHeight)];
        locationX := locationX + regionWidth;
        rx := rx + 1;
      }
      locationY := locationY + regionHeight;
      ry := ry + 1;
    }
    forall ry, rx | 0 <= ry < ChunkRows && 0 <= rx < ChunkCols
      ensures tiles[ry * ChunkCols + rx] == TileAt(w, h, ry, rx)
    {
      TileIndex(ry, rx);
    }
  }

  lemma TileIndex(ry: nat, rx: nat)
    requires rx < ChunkCols
    ensures (ry * ChunkCols + rx) / ChunkCols == ry && (ry * ChunkCols + rx) % ChunkCols == rx
  {
  }

  /**
   * The tiles cover the texture exactly: every pixel lies in one tile, and
   * in no other.
   */
  lemma TilesCoverTexture(w: nat, h: nat, px: nat, py: nat)
    requires px < w && py < h
    ensures exists i :: 0 <= i < ChunkRows * ChunkCols && TileContains(TileGrid(w, h)[i], px, py)
    ensures forall i, j ::
      (0 <= i < ChunkRows * ChunkCols && 0 <= j < ChunkRows * ChunkCols
       && TileContains(TileGrid(w, h)[i], px, py) && TileContains(TileGrid(w, h)[j], px, py)) ==> i == j
  {
    var tiles := TileGrid(w, h);
    var rx := PartContaining(w, ChunkCols, px);
    var ry := PartContaining(h, ChunkRows, py);
    TileIndex(ry, rx);
    assert TileContains(tiles[ry * ChunkCols + rx], px, py);
    forall i, j | 0 <= i < ChunkRows * ChunkCols && 0 <= j < ChunkRows * ChunkCols
      && TileContains(tiles[i], px, py) && TileContains(tiles[j], px, py)
      ensures i == j
    {
      PartUnique(w, ChunkCols, px, i % ChunkCols, j % ChunkCols);
      PartUnique(h, ChunkRows, py, i / ChunkCols, j / ChunkCols);
      DivMod(i, ChunkCols);
      DivMod(j, ChunkCols);
    }
  }

  // ---------------------------------------------------------------------
  // Row-major pixel buffers
  // ---------------------------------------------------------------------

  /** `y * width + x`. */
  function PixelIndex(width: nat, x: nat, y: nat): nat
  {
    y * width + x
  }

  /** Row `y` of a `width x height` buffer lies inside it. */
  lemma RowInBounds(width: nat, height: nat, y: nat)
    requires y < height
    ensures PixelIndex(width, 0, y) + width <= width * height
  {
    MulMonotone(y + 1, height, width);
  }

  /** Inside a `width x height` buffer the index is in bounds and determines the pixel. */
  lemma PixelIndexInBounds(width: nat, height: nat, x: nat, y: nat)
    requires x < width && y < height
    ensures PixelIndex(width, x, y) < width * height
    ensures PixelIndex(width, x, y) / width == y && PixelIndex(width, x, y) % width == x
  {
    MulMonotone(y + 1, height, width);
    DivMod(PixelIndex(width, x, y), width);
    var i := PixelIndex(width, x, y);
    var q := i / width;
    if q < y {
      MulMonotone(q + 1, y, width);
    } else if q > y {
      MulMonotone(y + 1, q, width);
    }
  }

  lemma PixelIndexInjective(width: nat, x1: nat, y1: nat, x2: nat, y2: nat)
    requires x1 < width && x2 < width
    requires PixelIndex(width, x1, y1) == PixelIndex(width, x2, y2)
    ensures x1 == x2 && y1 == y2
  {
    PixelIndexInBounds(width, y1 + 1, x1, y1);
    PixelIndexInBounds(width, y2 + 1, x2, y2);
  }

  // ---------------------------------------------------------------------
  // Row bands of the raylib drivers
  // ---------------------------------------------------------------------

  /** The drivers run eight workers. */
  const WorkersCount: nat := 8

  /** `[i * rows_per_worker, (i + 1) * rows_per_worker)`, `rows_per_worker = h / 8`. */
  function RowBand(height: nat, i: nat): (band: (nat, nat))
    ensures band.0 <= band.1
  {
    var rowsPerWorker := height / WorkersCount;
    (i * rowsPerWorker, (i + 1) * rowsPerWorker)
  }

  predicate InBand(height: nat, i: nat, y: nat)
  {
    RowBand(height, i).0 <= y < RowBand(height, i).1
  }

  /**
   * The bands are contiguous, their union is the first `h - h % 8` rows,
   * and the last `h % 8` rows belong to no worker.
   */
  lemma RowBandsContiguous(height: nat, i: nat)
    requires i + 1 < WorkersCount
    ensures RowBand(height, i).1 == RowBand(height, i + 1).0
  {
  }

  lemma RowBandsCover(height: nat, y: nat)
    ensures y < height - height % WorkersCount ==> exists i :: 0 <= i < WorkersCount && InBand(height, i, y)
    ensures height - height % WorkersCount <= y ==> forall i :: 0 <= i < WorkersCount ==> !InBand(height, i, y)
  {
    var r := height / WorkersCount;
    DivMod(height, WorkersCount);
    if y < height - height % WorkersCount {
      assert r > 0;
      var i := y / r;
      DivMod(y, r);
      DivBelow(y, r, WorkersCount);
      assert InBand(height, i, y);
    } else {
      forall i | 0 <= i < WorkersCount
        ensures !InBand(height, i, y)
      {
        MulMonotone(i + 1, WorkersCount, r);
      }
    }
  }

  lemma RowBandsDisjoint(height: nat, i: nat, j: nat, y: nat)
    requires InBand(height, i, y) && InBand(height, j, y)
    ensures i == j
  {
    var r := height / WorkersCount;
    if i < j {
      MulMonotone(i + 1, j, r);
    } else if j < i {
      MulMonotone(j + 1, i, r);
    }
  }

  /**
   * Worker `i` writes `y * width + x` for its rows: two workers never write
   * the same pixel, and every write is inside the `width x height` buffer.
   */
  lemma WorkerWritesDisjoint(width: nat, height: nat, i: nat, j: nat, x1: nat, y1: nat, x2: nat, y2: nat)
    requires x1 < width && x2 < width
    requires InBand(height, i, y1) && InBand(height, j, y2)
    requires PixelIndex(width, x1, y1) == PixelIndex(width, x2, y2)
    ensures i == j
  {
    PixelIndexInjective(width, x1, y1, x2, y2);
    RowBandsDisjoint(height, i, j, y1);
  }

  lemma WorkerWritesInBounds(width: nat, height: nat, i: nat, x: nat, y: nat)
    requires i < WorkersCount && x < width && InBand(height, i, y)
    ensures PixelIndex(width, x, y) < width * height
  {
    var r := height / WorkersCount;
    DivMod(height, WorkersCount);
    MulMonotone(i + 1, WorkersCount, r);
    PixelIndexInBounds(width, height, x, y);
  }
}
