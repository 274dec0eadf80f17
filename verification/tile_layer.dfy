/**
 * TileLayer (src/tilelayer.js): a named list of tiles built row by row
 * from the size of a parent map, and its own copy of the coordinate index.
 * A size that is missing (undefined) is None; a loop bound of undefined
 * runs no iteration, and a comparison with undefined is false.
 */
module Layers {
  import opened Wrappers
  import opened Bounds
  import opened Tiles

  /** The options object of the constructor; every field may be missing. */
  datatype LayerOptions = LayerOptions(
    name: Option<string>,
    tiles: Option<seq<TileOptions>>,
    properties: Option<PropertyMap>)

  /** `{}`. */
  function NoOptions(): LayerOptions
  {
    LayerOptions(None, None, None)
  }

  /** `options.name || "Tilelayer"`: a missing or empty name falls back to the default. */
  function LayerName(name: Option<string>): (r: string)
    ensures r != ""
    ensures name.Some? && name.value != "" ==> r == name.value
  {
    if name.Some? && name.value != "" then name.value else "Tilelayer"
  }

  /** How many tiles the nested loops create for a parent of this size. */
  function CellCount(width: Option<int>, height: Option<int>): (n: nat)
    ensures n > 0 <==> width.Some? && height.Some? && width.value > 0 && height.value > 0
  {
    if width.Some? && height.Some? && width.value > 0 && height.value > 0 then
      MulNonNeg(width.value, height.value);
      width.value * height.value
    else 0
  }

  /** What the tile at row-major position i is built from: options.tiles[i], or `{}`. */
  function TileSource(options: LayerOptions, i: nat): TileOptions
    requires options.tiles.Some? ==> i < |options.tiles.value|
  {
    if options.tiles.Some? then options.tiles.value[i] else FromObject(Undefined, Undefined, None)
  }

  /** The two ids the Tile constructor takes from its options. */
  function OptionIds(o: TileOptions): (Num, Num)
  {
    match o
    case FromString(text) => ParseTileString(text)
    case FromObject(tileId, tilesetId, _) => (tileId, tilesetId)
  }

  /** Whether the Tile constructor keeps the source's own properties map rather than making a new one. */
  predicate SharesProperties(o: TileOptions)
  {
    o.FromObject? && o.properties.Some?
  }

  /** The properties map the Tile constructor gives a tile built from o: o's own, or an empty one. */
  ghost predicate PropertiesFrom(t: Tile, o: TileOptions)
    reads t
  {
    if SharesProperties(o) then t.properties == o.properties.value else t.properties.size == 0
  }

  /** Whether every tile the loops ask for exists: options.tiles[i] of a missing slot is undefined, and new Tile(undefined) throws TypeError. */
  predicate EnoughTiles(options: LayerOptions, count: nat)
  {
    options.tiles.None? || count <= |options.tiles.value|
  }

  /** The tiles so far were built, in order, from their sources: their ids and their properties maps. */
  ghost predicate BuiltFrom(tiles: seq<Tile>, options: LayerOptions)
    reads tiles
  {
    EnoughTiles(options, |tiles|) &&
    forall i :: 0 <= i < |tiles| ==>
      (tiles[i].tileId, tiles[i].tilesetId) == OptionIds(TileSource(options, i)) &&
      PropertiesFrom(tiles[i], TileSource(options, i))
  }

  /** One more tile built from the next source keeps BuiltFrom. */
  lemma BuiltFromAppend(tiles: seq<Tile>, t: Tile, options: LayerOptions)
    requires BuiltFrom(tiles, options) && EnoughTiles(options, |tiles| + 1)
    requires (t.tileId, t.tilesetId) == OptionIds(TileSource(options, |tiles|))
    requires PropertiesFrom(t, TileSource(options, |tiles|))
    ensures BuiltFrom(tiles + [t], options)
  {
    var r := tiles + [t];
    forall i | 0 <= i < |r|
      ensures (r[i].tileId, r[i].tilesetId) == OptionIds(TileSource(options, i))
      ensures PropertiesFrom(r[i], TileSource(options, i))
    {
      if i < |tiles| {
        assert r[i] == tiles[i];
      }
    }
  }

  class TileLayer {
    var name: string
    var tiles: seq<Tile>
    var properties: PropertyMap
    /** _width and _height: the parent's size, kept for getTileIndex. */
    var width: Option<int>
    var height: Option<int>

    constructor Init(name: string, tiles: seq<Tile>, properties: PropertyMap, width: Option<int>, height: Option<int>)
      ensures this.name == name && this.tiles == tiles && this.properties == properties
      ensures this.width == width && this.height == height
    {
      this.name := name;
      this.tiles := tiles;
      this.properties := properties;
      this.width := width;
      this.height := height;
    }

    /**
     * The constructor, given the parent's width and height. Tile number
     * y * width + x is built from options.tiles at that same index, or from
     * `{}` when there is no tiles option.
     */
    static method Create(parentWidth: Option<int>, parentHeight: Option<int>, options: LayerOptions) returns (r: Result<TileLayer>)
      ensures r.Ok? <==> EnoughTiles(options, CellCount(parentWidth, parentHeight))
      ensures r.Err? ==> r.error == TypeError
      ensures r.Ok? ==> fresh(r.value)
      ensures r.Ok? ==> r.value.name == LayerName(options.name)
      ensures r.Ok? ==> r.value.width == parentWidth && r.value.height == parentHeight
      ensures r.Ok? ==> options.properties.Some? ==> r.value.properties == options.properties.value
      ensures r.Ok? ==> options.properties.None? ==> fresh(r.value.properties) && r.value.properties.size == 0
      ensures r.Ok? ==> |r.value.tiles| == CellCount(parentWidth, parentHeight)
      ensures r.Ok? ==> forall i :: 0 <= i < |r.value.tiles| ==>
        fresh(r.value.tiles[i]) && (r.value.tiles[i].tileId, r.value.tiles[i].tilesetId) == OptionIds(TileSource(options, i))
      ensures r.Ok? ==> forall i :: 0 <= i < |r.value.tiles| ==>
        PropertiesFrom(r.value.tiles[i], TileSource(options, i)) &&
        (!SharesProperties(TileSource(options, i)) ==> fresh(r.value.tiles[i].properties))
    {
      var built := BuildTiles(parentWidth, parentHeight, options);
      if built.None? {
        return Err(TypeError);
      }
      var tiles := built.value;
      var properties: PropertyMap;
      if options.properties.Some? {
        properties := options.properties.value;
      } else {
        properties := new PropertyMap();
      }
      var layer := new TileLayer.Init(LayerName(options.name), tiles, properties, parentWidth, parentHeight);
      r := Ok(layer);
    }

    /**
     * The nested loops of the constructor: one new tile per cell, row by
     * row; None when options.tiles runs out first.
     */
    static method BuildTiles(parentWidth: Option<int>, parentHeight: Option<int>, options: LayerOptions) returns (r: Option<seq<Tile>>)
      ensures r.Some? <==> EnoughTiles(options, CellCount(parentWidth, parentHeight))
      ensures r.Some? ==> |r.value| == CellCount(parentWidth, parentHeight) && BuiltFrom(r.value, options)
      ensures r.Some? ==> forall i :: 0 <= i < |r.value| ==>
        fresh(r.value[i]) && (!SharesProperties(TileSource(options, i)) ==> fresh(r.value[i].properties))
    {
      var tiles: seq<Tile> := [];
      if CellCount(parentWidth, parentHeight) > 0 {
        var w, h := parentWidth.value, parentHeight.value;
        var y := 0;
        while y < h
          invariant 0 <= y <= h && |tiles| == y * w
          invariant BuiltFrom(tiles, options)
          invariant forall i :: 0 <= i < |tiles| ==>
            fresh(tiles[i]) && (!SharesProperties(TileSource(options, i)) ==> fresh(tiles[i].properties))
        {
          var row := BuildRow(tiles, w, y, options);
          if row.None? {
            LastIndex(w, h, w - 1, y);
            return None;
          }
          tiles := row.value;
          y := y + 1;
        }
      }
      r := Some(tiles);
    }

    /**
     * The inner loop of the constructor: row y, x from 0 to width - 1, one
     * new tile per cell; None when options.tiles runs out first.
     */
    static method BuildRow(tiles: seq<Tile>, w: int, y: int, options: LayerOptions) returns (r: Option<seq<Tile>>)
      requires w > 0 && y >= 0 && |tiles| == y * w && BuiltFrom(tiles, options)
      ensures r.None? <==> !EnoughTiles(options, y * w + w)
      ensures r.Some? ==> |r.value| == y * w + w && r.value[..|tiles|] == tiles && BuiltFrom(r.value, options)
      ensures r.Some? ==> forall i :: |tiles| <= i < |r.value| ==>
        fresh(r.value[i]) && (!SharesProperties(TileSource(options, i)) ==> fresh(r.value[i].properties))
    {
      var row := tiles;
      ghost var base := |tiles|;
      var x := 0;
      while x < w
        invariant 0 <= x <= w && |row| == base + x && row[..base] == tiles
        invariant BuiltFrom(row, options)
        invariant forall i :: base <= i < |row| ==>
          fresh(row[i]) && (!SharesProperties(TileSource(options, i)) ==> fresh(row[i].properties))
      {
        var index := x % w + y * w;
        RowIndex(x, w, y, base);
        var next := AppendTile(row, index, options);
        if next.None? {
          return None;
        }
        row := next.value;
        x := x + 1;
      }
      r := Some(row);
    }

    /** One step of the inner loop: the tile for slot `index`, appended; None when options.tiles has no such slot. */
    static method AppendTile(row: seq<Tile>, index: int, options: LayerOptions) returns (r: Option<seq<Tile>>)
      requires index == |row| && BuiltFrom(row, options)
      ensures r.None? <==> !EnoughTiles(options, index + 1)
      ensures r.Some? ==> |r.value| == |row| + 1 && r.value[..|row|] == row && BuiltFrom(r.value, options)
      ensures r.Some? ==> fresh(r.value[index]) && (!SharesProperties(TileSource(options, index)) ==> fresh(r.value[index].properties))
    {
      var source: TileOptions;
      if options.tiles.Some? {
        if index >= |options.tiles.value| {
          return None;
        }
        source := options.tiles.value[index];
      } else {
        source := FromObject(Undefined, Undefined, None);
      }
      var tile := BuildTile(source);
      BuiltFromAppend(row, tile, options);
      r := Some(row + [tile]);
    }

    /** new Tile(source), seen through the ids it takes from its options. */
    static method BuildTile(source: TileOptions) returns (tile: Tile)
      ensures fresh(tile) && (tile.tileId, tile.tilesetId) == OptionIds(source)
      ensures PropertiesFrom(tile, source) && (!SharesProperties(source) ==> fresh(tile.properties))
    {
      tile := new Tile(source);
    }

    /**
     * getTileIndex as written: the y test is `y > _height`, so the row just
     * below the layer passes. A missing _width or _height disables its
     * tests, and a missing _width makes the index NaN.
     */
    function GetTileIndex(x: int, y: int): (r: Result<Num>)
      reads this
      ensures r.Err? <==> x < 0 || (width.Some? && x >= width.value) || y < 0 || (height.Some? && y > height.value)
      ensures r.Err? ==> r.error == RangeError
      ensures r.Ok? && width.Some? ==> r.value == Int(Index(width.value, x, y))
      ensures r.Ok? && width.None? ==> r.value == NaN
    {
      if x < 0 || (width.Some? && x >= width.value) || y < 0 || (height.Some? && y > height.value) then Err(RangeError)
      else if width.None? then Ok(NaN)
      else Ok(Int(y * width.value + x))
    }

    /** getTileIndex with the evidently intended `y >= _height`: every index it returns names a tile. */
    function GetTileIndexIntended(x: int, y: int): (r: Result<Num>)
      reads this
      ensures width.Some? && height.Some? ==>
        (r.Ok? <==> InGrid(width.value, height.value, x, y))
      ensures r.Ok? && width.Some? && height.Some? ==>
        r.value.Int? && 0 <= r.value.n < CellCount(width, height)
    {
      if x < 0 || (width.Some? && x >= width.value) || y < 0 || (height.Some? && y >= height.value) then Err(RangeError)
      else if width.None? then Ok(NaN)
      else if height.None? then Ok(Int(y * width.value + x))
      else
        IndexBelow(width.value, height.value, x, y);
        Ok(Int(y * width.value + x))
    }
  }

  /** The index the inner loop computes for column x of row y is the next free slot. */
  lemma RowIndex(x: int, w: int, y: int, base: int)
    requires 0 <= x < w && base == y * w
    ensures x % w + y * w == base + x
  {
    IndexDivMod(w, x, 0);
  }

  /** The last cell of the loops has index width * height - 1, so a missing slot means too few tiles. */
  lemma LastIndex(w: int, h: int, x: int, y: int)
    requires 0 <= x < w && 0 <= y < h
    ensures y * w + x < w * h
  {
    IndexBelow(w, h, x, y);
  }

  /** On a layer of width w and height h, getTileIndex(0, h) passes and points one row past the last tile. */
  lemma GetTileIndexPastEnd(layer: TileLayer, w: int, h: int)
    requires layer.width == Some(w) && layer.height == Some(h) && w > 0 && h > 0
    ensures layer.GetTileIndex(0, h).Ok?
    ensures layer.GetTileIndex(0, h).value == Int(w * h)
    ensures w * h >= CellCount(layer.width, layer.height)
    ensures layer.GetTileIndexIntended(0, h).Err?
  {
  }
}
