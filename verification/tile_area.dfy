/**
 * The TileArea class of src/tilearea.js: the class form of the tile grid.
 * Its tiles array holds Tile objects by reference; slicing copies the
 * references into a new array and insertion overwrites slots of the
 * receiver's own array in place.
 */
module TileAreas {
  import opened Wrappers
  import opened Bounds
  import opened Tiles

  /** Cell (x, y) of a row-major snapshot of a tiles array. */
  function Cell(s: seq<Tile>, width: int, height: int, x: int, y: int): Tile
    requires |s| == width * height && InGrid(width, height, x, y)
  {
    IndexBelow(width, height, x, y);
    s[Index(width, x, y)]
  }

  class TileArea {
    var width: int
    var height: int
    var tiles: array<Tile>

    /** Stores the three arguments as given; nothing is validated or copied. */
    constructor (width: int, height: int, tiles: array<Tile>)
      ensures this.width == width && this.height == height && this.tiles == tiles
    {
      this.width := width;
      this.height := height;
      this.tiles := tiles;
    }

    /** The tiles array has one slot per cell. */
    predicate Valid()
      reads this
    {
      tiles.Length == width * height
    }

    /** The tile object at cell (x, y). */
    function TileAt(x: int, y: int): Tile
      reads this, tiles
      requires Valid() && InGrid(width, height, x, y)
    {
      IndexBelow(width, height, x, y);
      tiles[Index(width, x, y)]
    }

    /** _inRange: whether the w by h rectangle at (x, y) lies inside the area (w and h default to 1). */
    predicate InRange(x: int, y: int, w: int := 1, h: int := 1)
      reads this
      ensures w == 1 && h == 1 ==> (InRange(x, y, w, h) <==> InGrid(width, height, x, y))
    {
      RectInRange(width, height, x, y, w, h)
    }

    /** getTileIndex: the row-major index of an in-range cell, RangeError for any other. */
    function GetTileIndex(x: int, y: int): (r: Result<int>)
      reads this
      ensures r.Ok? <==> InGrid(width, height, x, y)
      ensures r.Err? ==> r.error == RangeError
      ensures r.Ok? ==> r.value == Index(width, x, y) && r.value % width == x && r.value / width == y
      ensures r.Ok? && Valid() ==> 0 <= r.value < tiles.Length
    {
      if !InRange(x, y) then Err(RangeError)
      else
        IndexDivMod(width, x, y);
        IndexBelow(width, height, x, y);
        Ok(y * width + x)
    }

    /**
     * getTileArea: a new width by height area whose slots hold, in row-major
     * order, the same tile objects as this area's rectangle at (x, y); a
     * RangeError unless the whole rectangle is in range.
     */
    method GetTileArea(x: int, y: int, w: int, h: int) returns (r: Result<TileArea>)
      requires Valid()
      ensures r.Err? <==> !(0 < w && 0 < h && 0 <= x && x + w <= width && 0 <= y && y + h <= height)
      ensures r.Err? ==> r.error == RangeError
      ensures r.Ok? ==> fresh(r.value) && fresh(r.value.tiles) && r.value.width == w && r.value.height == h
      ensures r.Ok? ==> r.value.Valid()
      ensures r.Ok? ==> forall i, j :: InGrid(w, h, i, j) ==> r.value.TileAt(i, j) == TileAt(x + i, y + j)
    {
      if !InRange(x, y, w, h) {
        return Err(RangeError);
      }
      var picked: seq<Tile> := [];
      var ly := y;
      while ly < y + h
        invariant y <= ly <= y + h
        invariant |picked| == (ly - y) * w
        invariant forall k :: 0 <= k < |picked| ==>
                    InGrid(w, h, k % w, k / w) && picked[k] == TileAt(x + k % w, y + k / w)
      {
        var lx := x;
        while lx < x + w
          invariant x <= lx <= x + w
          invariant |picked| == (ly - y) * w + (lx - x)
          invariant forall k :: 0 <= k < |picked| ==>
                      InGrid(w, h, k % w, k / w) && picked[k] == TileAt(x + k % w, y + k / w)
        {
          assert |picked| == Index(w, lx - x, ly - y);
          IndexDivMod(w, lx - x, ly - y);
          var index := GetTileIndex(lx, ly);
          picked := picked + [tiles[index.value]];
          lx := lx + 1;
        }
        assert (ly - y) * w + w == (ly + 1 - y) * w;
        ly := ly + 1;
      }
      assert |picked| == w * h;
      var slots := new Tile[|picked|](i requires 0 <= i < |picked| => picked[i]);
      var area := new TileArea(w, h, slots);
      forall i, j | InGrid(w, h, i, j)
        ensures area.TileAt(i, j) == TileAt(x + i, y + j)
      {
        IndexBelow(w, h, i, j);
        IndexDivMod(w, i, j);
      }
      r := Ok(area);
    }

    /**
     * The tile insertTileArea leaves at cell (cx, cy), given the tile there
     * before: the source tile landing on it, unless skipEmpty is set and
     * that tile's id is -1; the tile before when no source tile lands on it.
     */
    static function InsertedTile(other: TileArea, x: int, y: int, skipEmpty: bool, cx: int, cy: int, current: Tile): Tile
      reads other, other.tiles, set i | 0 <= i < other.tiles.Length :: other.tiles[i]
      requires other.Valid()
    {
      if !InGrid(other.width, other.height, cx - x, cy - y) then current
      else
        IndexBelow(other.width, other.height, cx - x, cy - y);
        var t := other.TileAt(cx - x, cy - y);
        if skipEmpty && t.tileId == Int(-1) then current else t
    }

    /**
     * insertTileArea: copy the other area's tile references into this
     * area's tiles array with the other's top-left at (x, y), in place.
     * Cells falling outside this area are skipped without error.
     */
    method InsertTileArea(x: int, y: int, other: TileArea, skipEmpty: bool)
      requires Valid() && other.Valid() && other.tiles != tiles
      modifies tiles
      ensures forall cx, cy :: InGrid(width, height, cx, cy) ==>
        TileAt(cx, cy) == InsertedTile(other, x, y, skipEmpty, cx, cy, Cell(old(tiles[..]), width, height, cx, cy))
      ensures forall cx, cy :: InGrid(width, height, cx, cy) && !InGrid(other.width, other.height, cx - x, cy - y) ==>
        TileAt(cx, cy) == Cell(old(tiles[..]), width, height, cx, cy)
    {
      ghost var before := tiles[..];
      InsertStart(x, y, other, skipEmpty, before);
      var lx := x;
      while lx < x + other.width
        invariant x <= lx
        invariant InsertedBefore(x, y, other, skipEmpty, before, lx, y)
      {
        var ly := y;
        while ly < y + other.height
          invariant y <= ly
          invariant InsertedBefore(x, y, other, skipEmpty, before, lx, ly)
        {
          InsertOne(x, y, other, skipEmpty, lx, ly, before);
          ly := ly + 1;
        }
        InsertNextColumn(x, y, other, skipEmpty, before, lx, ly);
        lx := lx + 1;
      }
      InsertFinish(x, y, other, skipEmpty, before, lx);
      forall cx, cy | InGrid(width, height, cx, cy) && !InGrid(other.width, other.height, cx - x, cy - y)
        ensures TileAt(cx, cy) == Cell(before, width, height, cx, cy)
      {
        OutsideKept(other, x, y, skipEmpty, cx, cy, Cell(before, width, height, cx, cy));
      }
    }

    /**
     * The loop state of insertTileArea: the cells before (lx, ly) in
     * column-major order hold what the insertion leaves there, every other
     * cell still holds its tile from `before`.
     */
    ghost predicate InsertedBefore(x: int, y: int, other: TileArea, skipEmpty: bool, before: seq<Tile>, lx: int, ly: int)
      reads this, tiles, other, other.tiles, set i | 0 <= i < other.tiles.Length :: other.tiles[i]
      requires Valid() && other.Valid() && |before| == width * height
    {
      forall cx, cy :: InGrid(width, height, cx, cy) ==>
        TileAt(cx, cy) ==
          if cx < lx || (cx == lx && cy < ly) then InsertedTile(other, x, y, skipEmpty, cx, cy, Cell(before, width, height, cx, cy))
          else Cell(before, width, height, cx, cy)
    }

    lemma InsertStart(x: int, y: int, other: TileArea, skipEmpty: bool, before: seq<Tile>)
      requires Valid() && other.Valid() && before == tiles[..]
      ensures InsertedBefore(x, y, other, skipEmpty, before, x, y)
    {
      forall cx, cy | InGrid(width, height, cx, cy)
        ensures TileAt(cx, cy) ==
          if cx < x || (cx == x && cy < y) then InsertedTile(other, x, y, skipEmpty, cx, cy, Cell(before, width, height, cx, cy))
          else Cell(before, width, height, cx, cy)
      {
        IndexBelow(width, height, cx, cy);
        assert TileAt(cx, cy) == Cell(before, width, height, cx, cy);
        if cx < x || (cx == x && cy < y) {
          OutsideKept(other, x, y, skipEmpty, cx, cy, Cell(before, width, height, cx, cy));
        }
      }
    }

    lemma InsertNextColumn(x: int, y: int, other: TileArea, skipEmpty: bool, before: seq<Tile>, lx: int, ly: int)
      requires Valid() && other.Valid() && |before| == width * height
      requires InsertedBefore(x, y, other, skipEmpty, before, lx, ly) && ly >= y + other.height
      ensures InsertedBefore(x, y, other, skipEmpty, before, lx + 1, y)
    {
      forall cx, cy | InGrid(width, height, cx, cy) && cx == lx && cy >= ly
        ensures InsertedTile(other, x, y, skipEmpty, cx, cy, Cell(before, width, height, cx, cy)) == Cell(before, width, height, cx, cy)
      {
        OutsideKept(other, x, y, skipEmpty, cx, cy, Cell(before, width, height, cx, cy));
      }
      forall cx, cy | InGrid(width, height, cx, cy) && cx == lx + 1 && cy < y
        ensures InsertedTile(other, x, y, skipEmpty, cx, cy, Cell(before, width, height, cx, cy)) == Cell(before, width, height, cx, cy)
      {
        OutsideKept(other, x, y, skipEmpty, cx, cy, Cell(before, width, height, cx, cy));
      }
    }

    lemma InsertFinish(x: int, y: int, other: TileArea, skipEmpty: bool, before: seq<Tile>, lx: int)
      requires Valid() && other.Valid() && |before| == width * height
      requires InsertedBefore(x, y, other, skipEmpty, before, lx, y) && lx >= x + other.width
      ensures forall cx, cy :: InGrid(width, height, cx, cy) ==>
        TileAt(cx, cy) == InsertedTile(other, x, y, skipEmpty, cx, cy, Cell(before, width, height, cx, cy))
    {
      forall cx, cy | InGrid(width, height, cx, cy) && !(cx < lx || (cx == lx && cy < y))
        ensures InsertedTile(other, x, y, skipEmpty, cx, cy, Cell(before, width, height, cx, cy)) == Cell(before, width, height, cx, cy)
      {
        OutsideKept(other, x, y, skipEmpty, cx, cy, Cell(before, width, height, cx, cy));
      }
    }

    /** Cells no source tile lands on keep their tile. */
    static lemma OutsideKept(other: TileArea, x: int, y: int, skipEmpty: bool, cx: int, cy: int, current: Tile)
      requires other.Valid() && !InGrid(other.width, other.height, cx - x, cy - y)
      ensures InsertedTile(other, x, y, skipEmpty, cx, cy, current) == current
    {
    }

    /**
     * The try block for target cell (lx, ly): read the source tile, skip it
     * when it is empty and skipEmpty is set, write it unless the target is
     * out of range (the RangeError is caught and the cell skipped).
     */
    method InsertOne(x: int, y: int, other: TileArea, skipEmpty: bool, lx: int, ly: int, ghost before: seq<Tile>)
      requires Valid() && other.Valid() && other.tiles != tiles && |before| == width * height
      modifies tiles
      ensures old(InsertedBefore(x, y, other, skipEmpty, before, lx, ly)) ==> InsertedBefore(x, y, other, skipEmpty, before, lx, ly + 1)
      ensures forall cx, cy :: InGrid(width, height, cx, cy) ==>
        TileAt(cx, cy) ==
          if cx == lx && cy == ly then InsertedTile(other, x, y, skipEmpty, cx, cy, old(TileAt(cx, cy)))
          else old(TileAt(cx, cy))
    {
      var source := other.GetTileIndex(lx - x, ly - y);
      if source.Ok? {
        var newTile := other.tiles[source.value];
        assert newTile == other.TileAt(lx - x, ly - y);
        if !(skipEmpty && newTile.tileId == Int(-1)) {
          var target := GetTileIndex(lx, ly);
          if target.Ok? {
            SlotWrite(lx, ly, newTile);
          }
        }
      }
    }

    /** Writing the slot of cell (x, y) changes that cell and no other. */
    method SlotWrite(x: int, y: int, t: Tile)
      requires Valid() && InGrid(width, height, x, y)
      modifies tiles
      ensures forall cx, cy :: InGrid(width, height, cx, cy) ==>
        TileAt(cx, cy) == if cx == x && cy == y then t else old(TileAt(cx, cy))
    {
      IndexBelow(width, height, x, y);
      tiles[Index(width, x, y)] := t;
      forall cx, cy | InGrid(width, height, cx, cy)
        ensures TileAt(cx, cy) == if cx == x && cy == y then t else old(TileAt(cx, cy))
      {
        IndexBelow(width, height, cx, cy);
        if Index(width, x, y) == Index(width, cx, cy) {
          IndexInjective(width, x, y, cx, cy);
        }
      }
    }
  }
}
