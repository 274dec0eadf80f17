/**
 * TileMap (src/tilemap.js): a named map with a size, a tile size and a list
 * of layers. Each entry of the layers option becomes one layer through
 * createLayer, which hands the entry to the TileLayer constructor as its
 * parent map; only the entry's width and height are read there.
 */
module Maps {
  import opened Wrappers
  import opened Tiles
  import opened Layers

  /** An entry of options.layers, as far as createLayer reads it. */
  datatype LayerData = LayerData(width: Option<int>, height: Option<int>)

  /** The constructor's options; every field may be missing. */
  datatype MapOptions = MapOptions(
    name: Option<string>,
    width: Option<int>,
    height: Option<int>,
    tileWidth: Option<int>,
    tileHeight: Option<int>,
    layers: Option<seq<LayerData>>,
    properties: Option<PropertyMap>)

  /** `options.name || "Tilemap"`. */
  function MapName(name: Option<string>): (r: string)
    ensures r != ""
    ensures name.Some? && name.value != "" ==> r == name.value
    ensures name.None? || name.value == "" ==> r == "Tilemap"
  {
    if name.Some? && name.value != "" then name.value else "Tilemap"
  }

  /** `options.layers || []`. */
  function LayerList(layers: Option<seq<LayerData>>): seq<LayerData>
  {
    if layers.Some? then layers.value else []
  }

  /**
   * What a layer made by createLayer from `data` looks like: the default
   * name, the entry's size, an empty properties map, and one tile per cell,
   * each built from `{}`: undefined ids and an empty properties map.
   */
  ghost predicate LayerFrom(layer: TileLayer, data: LayerData)
    reads layer, layer.tiles
  {
    layer.name == "Tilelayer" &&
    layer.width == data.width && layer.height == data.height &&
    layer.properties.size == 0 &&
    |layer.tiles| == CellCount(data.width, data.height) &&
    forall i :: 0 <= i < |layer.tiles| ==>
      layer.tiles[i].tileId == Undefined && layer.tiles[i].tilesetId == Undefined && layer.tiles[i].properties.size == 0
  }

  /** Everything a layer made by createLayer holds was allocated for it. */
  twostate predicate FreshLayer(new layer: TileLayer)
    reads layer, layer.tiles
  {
    fresh(layer) && fresh(layer.properties) &&
    forall i :: 0 <= i < |layer.tiles| ==> fresh(layer.tiles[i]) && fresh(layer.tiles[i].properties)
  }

  class TileMap {
    var name: string
    var width: Option<int>
    var height: Option<int>
    var tileWidth: Option<int>
    var tileHeight: Option<int>
    var layers: seq<TileLayer>
    var properties: PropertyMap

    /**
     * The constructor: copies the sizes, names the map, then runs
     * createLayer once per entry of options.layers, in order.
     */
    constructor (options: MapOptions)
      ensures name == MapName(options.name)
      ensures width == options.width && height == options.height
      ensures tileWidth == options.tileWidth && tileHeight == options.tileHeight
      ensures |layers| == |LayerList(options.layers)|
      ensures forall i :: 0 <= i < |layers| ==> FreshLayer(layers[i]) && LayerFrom(layers[i], LayerList(options.layers)[i])
      ensures forall i, j :: 0 <= i < j < |layers| ==> layers[i] != layers[j]
      ensures options.properties.Some? ==> properties == options.properties.value
      ensures options.properties.None? ==> fresh(properties) && properties.size == 0
    {
      name := MapName(options.name);
      width := options.width;
      height := options.height;
      tileWidth := options.tileWidth;
      tileHeight := options.tileHeight;
      layers := [];
      properties := new PropertyMap();
      new;
      var data := LayerList(options.layers);
      var i := 0;
      while i < |data|
        invariant 0 <= i <= |data| && |layers| == i
        invariant name == MapName(options.name)
        invariant width == options.width && height == options.height
        invariant tileWidth == options.tileWidth && tileHeight == options.tileHeight
        invariant fresh(properties) && properties.size == 0
        invariant forall k :: 0 <= k < i ==> FreshLayer(layers[k]) && LayerFrom(layers[k], data[k])
        invariant forall k, l :: 0 <= k < l < i ==> layers[k] != layers[l]
      {
        var layer := CreateLayer(data[i]);
        i := i + 1;
      }
      if options.properties.Some? {
        properties := options.properties.value;
      }
    }

    /**
     * createLayer: a new layer whose parent size is the given layer data,
     * with no options, appended to the layers and returned.
     */
    method CreateLayer(data: LayerData) returns (layer: TileLayer)
      modifies this
      ensures FreshLayer(layer) && LayerFrom(layer, data)
      ensures layers == old(layers) + [layer]
      ensures name == old(name) && width == old(width) && height == old(height)
      ensures tileWidth == old(tileWidth) && tileHeight == old(tileHeight) && properties == old(properties)
    {
      var created := TileLayer.Create(data.width, data.height, NoOptions());
      layer := created.value;
      layers := layers + [layer];
    }
  }
}
