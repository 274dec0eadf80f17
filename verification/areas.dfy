/**
 * The functional tile-area API (src/index.js): plain areas with a width, a
 * height and a row-major tile list. Tiles are copied by value, so a tile is a
 * datatype and no operation can change the areas it is given.
 */
module Areas {
  import opened Wrappers
  import opened Bounds

  /** The two fields a tile carries in this API; `-1` as the id means empty. */
  datatype TileData = TileData(tileId: int, tilesetId: int)

  datatype Area = Area(width: int, height: int, tiles: seq<TileData>)

  /** What createTileArea checks: one tile per cell. */
  predicate Valid(area: Area)
  {
    area.width * area.height == |area.tiles|
  }

  /** The tile of a cell of a valid area. */
  function At(area: Area, x: int, y: int): TileData
    requires Valid(area) && InGrid(area.width, area.height, x, y)
  {
    IndexBelow(area.width, area.height, x, y);
    area.tiles[Index(area.width, x, y)]
  }

  /** emptyTile: the tile that marks an unused cell. */
  function EmptyTile(): (r: TileData)
    ensures r.tileId == -1 && r.tilesetId == -1
  {
    TileData(-1, -1)
  }

  function CreateTileArea(width: int, height: int, tiles: seq<TileData>): (r: Result<Area>)
    ensures r.Ok? <==> width * height == |tiles|
    ensures r.Err? ==> r.error == RangeError
    ensures r.Ok? ==> Valid(r.value) && r.value == Area(width, height, tiles)
  {
    if width * height != |tiles| then Err(RangeError)
    else Ok(Area(width, height, tiles))
  }

  /** inRange, with the same defaults for the rectangle size. */
  predicate InRange(area: Area, x: int, y: int, width: int := 1, height: int := 1): (r: bool)
    ensures width == 1 && height == 1 ==> (r <==> InGrid(area.width, area.height, x, y))
    ensures r <==> (0 < width && 0 < height &&
                    InGrid(area.width, area.height, x, y) && InGrid(area.width, area.height, x + width - 1, y + height - 1))
  {
    RectInRange(area.width, area.height, x, y, width, height)
  }

  function GetTileIndex(area: Area, x: int, y: int): (r: Result<int>)
    ensures r.Ok? <==> InGrid(area.width, area.height, x, y)
    ensures r.Err? ==> r.error == RangeError
    ensures r.Ok? ==> r.value == Index(area.width, x, y)
    ensures r.Ok? && Valid(area) ==> 0 <= r.value < |area.tiles|
  {
    if !InRange(area, x, y) then Err(RangeError)
    else
      var i := y * area.width + x;
      IndexBelow(area.width, area.height, x, y);
      Ok(i)
  }

  function GetTile(area: Area, x: int, y: int): (r: Result<TileData>)
    requires Valid(area)
    ensures r.Ok? <==> InGrid(area.width, area.height, x, y)
    ensures r.Err? ==> r.error == RangeError
    ensures r.Ok? ==> r.value == At(area, x, y)
  {
    match GetTileIndex(area, x, y)
    case Err(e) => Err(e)
    case Ok(i) => Ok(area.tiles[i])
  }

  /** Cell (i, j) of the slice of `area` at (x, y) sized w x h. */
  function SliceCell(area: Area, x: int, y: int, w: int, h: int, i: int, j: int): TileData
    requires Valid(area) && InGrid(w, h, i, j)
  {
    if InRange(area, x, y, w, h) then At(area, x + i, y + j) else EmptyTile()
  }

  /**
   * getTileAreaSlice. The range test covers the whole requested rectangle,
   * not the cell being copied, so a rectangle that sticks out of the area
   * anywhere yields only empty tiles.
   */
  method GetTileAreaSlice(area: Area, x: int, y: int, width: int, height: int) returns (r: Result<Area>)
    requires Valid(area)
    ensures r.Err? <==> width <= 0 || height <= 0
    ensures r.Err? ==> r.error == RangeError
    ensures r.Ok? ==> r.value.width == width && r.value.height == height && Valid(r.value)
    ensures r.Ok? ==> forall i, j :: InGrid(width, height, i, j) ==>
                        At(r.value, i, j) == SliceCell(area, x, y, width, height, i, j)
  {
    if width <= 0 || height <= 0 {
      return Err(RangeError);
    }
    var tiles: seq<TileData> := [];
    var ly := y;
    while ly < y + height
      invariant y <= ly <= y + height
      invariant |tiles| == (ly - y) * width
      invariant SlicedSoFar(area, x, y, width, height, tiles)
    {
      var lx := x;
      while lx < x + width
        invariant x <= lx <= x + width
        invariant |tiles| == (ly - y) * width + (lx - x)
        invariant SlicedSoFar(area, x, y, width, height, tiles)
      {
        assert |tiles| == Index(width, lx - x, ly - y);
        var cell: TileData;
        if !InRange(area, x, y, width, height) {
          cell := EmptyTile();
        } else {
          var t := GetTile(area, lx, ly);
          cell := t.value;
        }
        SliceAppend(area, x, y, width, height, tiles, lx - x, ly - y, cell);
        tiles := tiles + [cell];
        lx := lx + 1;
      }
      assert (ly - y) * width + width == (ly + 1 - y) * width;
      ly := ly + 1;
    }
    assert |tiles| == width * height;
    r := CreateTileArea(width, height, tiles);
    SliceFinish(area, x, y, width, height, tiles);
  }

  /** Every slot filled so far holds the slice cell of its row-major position. */
  ghost predicate SlicedSoFar(area: Area, x: int, y: int, w: int, h: int, tiles: seq<TileData>)
    requires Valid(area) && w > 0
  {
    forall k :: 0 <= k < |tiles| ==>
      InGrid(w, h, k % w, k / w) && tiles[k] == SliceCell(area, x, y, w, h, k % w, k / w)
  }

  /** Pushing slice cell (i, j) at its own row-major position keeps SlicedSoFar. */
  lemma SliceAppend(area: Area, x: int, y: int, w: int, h: int, tiles: seq<TileData>, i: int, j: int, cell: TileData)
    requires Valid(area) && InGrid(w, h, i, j) && |tiles| == Index(w, i, j)
    requires SlicedSoFar(area, x, y, w, h, tiles)
    requires cell == SliceCell(area, x, y, w, h, i, j)
    ensures SlicedSoFar(area, x, y, w, h, tiles + [cell])
  {
    IndexDivMod(w, i, j);
    var r := tiles + [cell];
    forall k | 0 <= k < |r|
      ensures InGrid(w, h, k % w, k / w) && r[k] == SliceCell(area, x, y, w, h, k % w, k / w)
    {
      if k < |tiles| {
        assert r[k] == tiles[k];
      }
    }
  }

  /** A full slice list read as an area gives the slice cell at every cell. */
  lemma SliceFinish(area: Area, x: int, y: int, w: int, h: int, tiles: seq<TileData>)
    requires Valid(area) && w > 0 && |tiles| == w * h
    requires SlicedSoFar(area, x, y, w, h, tiles)
    ensures forall i, j :: InGrid(w, h, i, j) ==> At(Area(w, h, tiles), i, j) == SliceCell(area, x, y, w, h, i, j)
  {
    forall i, j | InGrid(w, h, i, j)
      ensures At(Area(w, h, tiles), i, j) == SliceCell(area, x, y, w, h, i, j)
    {
      IndexBelow(w, h, i, j);
      IndexDivMod(w, i, j);
    }
  }

  /** Overwriting one slot of a valid area changes that cell and no other. */
  lemma SetCell(area: Area, x: int, y: int, t: TileData)
    requires Valid(area) && InGrid(area.width, area.height, x, y)
    ensures Index(area.width, x, y) < |area.tiles|
    ensures var area' := Area(area.width, area.height, area.tiles[Index(area.width, x, y) := t]);
            Valid(area') &&
            forall cx, cy :: InGrid(area.width, area.height, cx, cy) ==>
              At(area', cx, cy) == if cx == x && cy == y then t else At(area, cx, cy)
  {
    IndexBelow(area.width, area.height, x, y);
    var i := Index(area.width, x, y);
    var area' := Area(area.width, area.height, area.tiles[i := t]);
    forall cx, cy | InGrid(area.width, area.height, cx, cy)
      ensures At(area', cx, cy) == if cx == x && cy == y then t else At(area, cx, cy)
    {
      IndexBelow(area.width, area.height, cx, cy);
      if Index(area.width, cx, cy) == i {
        IndexInjective(area.width, cx, cy, x, y);
      }
    }
  }

  /** The tile a JavaScript-style remainder tiling picks on one axis. */
  function TilingCoord(c: int, origin: int, size: int): (r: int)
    requires size > 0
    ensures 0 <= r < size && r == (c - origin) % size
  {
    var a := c - origin;
    var m := JsRemainder(a, size);
    var r := JsRemainder(m + size, size);
    TilingCoordIsModulo(a, size);
    r
  }

  lemma TilingCoordIsModulo(a: int, size: int)
    requires size > 0
    ensures JsRemainder(JsRemainder(a, size) + size, size) == a % size
  {
    var m := JsRemainder(a, size);
    if a >= 0 {
      ModShift(m, 1, size);
    } else {
      var q, m' := (-a) / size, (-a) % size;
      assert -a == q * size + m';
      assert m == -m';
      if m' == 0 {
        assert a == (-q) * size + 0;
        IndexDivMod(size, 0, -q);
        IndexDivMod(size, 0, 1);
      } else {
        assert a == (-q - 1) * size + (size - m');
        IndexDivMod(size, size - m', -q - 1);
        IndexDivMod(size, size - m', 0);
      }
    }
  }

  /**
   * getTilingTileData: the pattern area repeated without end in both
   * directions, anchored so that (originX, originY) shows its tile (0, 0).
   */
  function GetTilingTileData(area: Area, originX: int, originY: int, x: int, y: int): (r: TileData)
    requires Valid(area) && area.width > 0 && area.height > 0
    ensures r == At(area, (x - originX) % area.width, (y - originY) % area.height)
  {
    var tileX := TilingCoord(x, originX, area.width);
    var tileY := TilingCoord(y, originY, area.height);
    GetTile(area, tileX, tileY).value
  }

  /** Moving the sampled position by whole pattern sizes, in any direction and any distance, changes nothing. */
  lemma TilingPeriodic(area: Area, originX: int, originY: int, x: int, y: int, k: int, m: int)
    requires Valid(area) && area.width > 0 && area.height > 0
    ensures GetTilingTileData(area, originX, originY, x + k * area.width, y + m * area.height)
         == GetTilingTileData(area, originX, originY, x, y)
  {
    assert (x + k * area.width) - originX == (x - originX) + k * area.width;
    assert (y + m * area.height) - originY == (y - originY) + m * area.height;
    ModShift(x - originX, k, area.width);
    ModShift(y - originY, m, area.height);
  }

  /** Inside one copy of the pattern, the tiling reads the pattern at the offset from the origin. */
  lemma TilingInsidePattern(area: Area, originX: int, originY: int, x: int, y: int)
    requires Valid(area) && InGrid(area.width, area.height, x - originX, y - originY)
    ensures GetTilingTileData(area, originX, originY, x, y) == At(area, x - originX, y - originY)
  {
    IndexDivMod(area.width, x - originX, 0);
    IndexDivMod(area.height, y - originY, 0);
  }

  /** The tile mergeTileAreas leaves at cell (cx, cy) of the base area. */
  function MergedCell(area1: Area, area2: Area, x: int, y: int, skipEmpty: bool, cx: int, cy: int): TileData
    requires Valid(area1) && Valid(area2) && InGrid(area1.width, area1.height, cx, cy)
  {
    if InGrid(area2.width, area2.height, cx - x, cy - y) && !(skipEmpty && At(area2, cx - x, cy - y).tileId == -1)
    then At(area2, cx - x, cy - y)
    else At(area1, cx, cy)
  }

  /**
   * mergeTileAreas: area2 laid over area1 with its corner at (x, y). Cells of
   * area2 that land outside area1 are skipped without an error, and so are
   * empty tiles when skipEmpty is set.
   */
  method MergeTileAreas(area1: Area, area2: Area, x: int, y: int, skipEmpty: bool) returns (r: Area)
    requires Valid(area1) && Valid(area2)
    ensures r.width == area1.width && r.height == area1.height && Valid(r)
    ensures forall cx, cy :: InGrid(area1.width, area1.height, cx, cy) ==>
              At(r, cx, cy) == MergedCell(area1, area2, x, y, skipEmpty, cx, cy)
  {
    var width, height := area1.width, area1.height;
    var newTiles := area1.tiles;
    var lx := x;
    while lx < x + area2.width
      invariant x <= lx && |newTiles| == |area1.tiles|
      invariant forall cx, cy :: InGrid(width, height, cx, cy) ==>
                  At(Area(width, height, newTiles), cx, cy) ==
                  if cx < lx then MergedCell(area1, area2, x, y, skipEmpty, cx, cy) else At(area1, cx, cy)
    {
      var ly := y;
      while ly < y + area2.height
        invariant y <= ly && |newTiles| == |area1.tiles|
        invariant forall cx, cy :: InGrid(width, height, cx, cy) ==>
                    At(Area(width, height, newTiles), cx, cy) ==
                    if cx < lx || (cx == lx && cy < ly) then MergedCell(area1, area2, x, y, skipEmpty, cx, cy)
                    else At(area1, cx, cy)
      {
        var newTile := GetTile(area2, lx - x, ly - y);
        if newTile.Ok? && !(skipEmpty && newTile.value.tileId == -1) {
          var index := GetTileIndex(area1, lx, ly);
          if index.Ok? {
            SetCell(Area(width, height, newTiles), lx, ly, newTile.value);
            newTiles := newTiles[index.value := newTile.value];
          }
        }
        ly := ly + 1;
      }
      lx := lx + 1;
    }
    r := CreateTileArea(width, height, newTiles).value;
  }
}
