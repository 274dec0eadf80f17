# tile-tools in Dafny

A model of the core of tile-tools, a JavaScript library for editing tile maps. The model covers:

- **The functional tile-area API** (`src/index.js`): plain `{width, height, tiles}` areas stored row-major. It covers cell indexing, slicing, toroidal tiling lookup, merging one area onto another, and the scan-line bucket fill (`fillTileAreaAt`).
- **The `TileArea` class** (`src/tilearea.js`): the class form of the grid. Its tiles array holds `Tile` objects by reference, and `insertTileArea` overwrites its slots in place.
- **`Tile`** (`src/tile.js`): construction from an object or from the compact `"tileId:tilesetId"` string, `setData`, the compact `toJSON` form and `clone`.
- **`PropertyObject`** (`src/propertyObject.js`): string-keyed, JSON-serialisable properties, held in insertion order.
- **`TileLayer` and `TileMap`** (`src/tilelayer.js`, `src/tilemap.js`): layers built row by row from a parent size, and a map that creates one layer per entry of its `layers` option.
- **`EventEmitter`** (`src/event.js`) and **`ObservableArray`** (`src/observableArray.js`):
  - listeners are registered, removed and emitted;
  - the array attaches and detaches one listener per item it gains or loses.
- **`MapObject`** (`src/mapObject.js`): constructor defaults, rectangle validation and `clone`.

There is one module per source file:

- `Areas` and `FloodFill` for `src/index.js`;
- `TileAreas`, `Tiles`, `Properties`, `Layers`, `Maps`, `Events`, `Observables` and `MapObjects` for the other files;
- two shared modules: `Wrappers` holds `Result`, `Outcome` and the `RangeError`/`TypeError` kinds, and `Bounds` holds row-major arithmetic and the rectangle test.

Each JavaScript construct has a counterpart in the model:

- **Thrown errors** become `Err`/`Fail` results. A constructor that can throw becomes a static `Create` method returning a `Result`.
- **Objects whose fields the library updates** become classes: `Tile`, `TileArea`, `PropertyObject`, `EventEmitter`, `ObservableArray`, `TileLayer`, `TileMap` and `MapObject`.
- **Values the library copies** become datatypes: the tiles and areas of `src/index.js`.
- **Listener functions** become opaque ids.
- **Tile ids** are `Num`: an integer, `NaN` (what `parseInt` gives for a non-number) or `undefined` (what a layer built from `{}` stores).

The code and its accompanying tests disagree in several places. The model follows the code:

- a tile has no default `-1` ids;
- `PropertyObject` does not skip the empty key and has no `remove`;
- `EventEmitter` has no `offAll` or `forward`;
- `ObservableArray.push` inserts before the last element instead of appending.

## Model

| member | source | states |
|---|---|---|
| Bounds.RectInRange | src/index.js:211-217 | The rectangle test holds exactly when the width and height are positive and the rectangle lies wholly inside the grid; the inclusive `y > height` term never decides the outcome |
| Bounds.IndexBelow | src/index.js:35 | The row-major index of a cell of a width × height grid lies in `[0, width*height)` |
| Bounds.IndexDivMod | src/index.js:35 | For `0 <= x < width`, the index `y*width + x` gives back `y` as quotient and `x` as remainder |
| Bounds.IndexInjective | src/index.js:35 | Two cells in range of the width with the same index are the same cell |
| Bounds.IndexCovers | src/index.js:35 | Every index below `width*height` is the index of an in-grid cell |
| Bounds.JsRemainder | src/index.js:97-98 | JavaScript's `%`: the remainder lies strictly between `-b` and `b` and agrees with the mathematical remainder for non-negative dividends |
| Bounds.ModShift | src/index.js:97-98 | Adding whole multiples of the divisor leaves the remainder unchanged |
| Areas.EmptyTile | src/index.js:219-223 | The empty tile has tile id -1 and tileset id -1 |
| Areas.InRange | src/index.js:211-217 | True exactly when the size is positive and both the top-left cell and the bottom-right cell of the rectangle lie in the grid; with the default 1 × 1 size, exactly when the cell lies in the grid |
| Areas.CreateTileArea | src/index.js:13-21 | RangeError exactly when `width*height` differs from the tile count; otherwise the area with exactly the given fields |
| Areas.GetTileIndex | src/index.js:32-36 | `Ok(y*width + x)` exactly when the cell lies in the grid (exclusive on both axes), RangeError otherwise; the index names a tile of a valid area |
| Areas.GetTile | src/index.js:47-49 | The tile at the cell when it lies in the grid, RangeError otherwise |
| Areas.GetTileAreaSlice | src/index.js:67-78 | RangeError exactly when the width or height is not positive. Otherwise a valid area of the requested size whose cell (i, j) is the source cell (x+i, y+j) when the whole rectangle is in range, and the empty tile `{-1,-1}` everywhere when any part sticks out |
| Areas.SetCell | src/index.js:124 | Overwriting the slot of one cell changes that cell and no other |
| Areas.TilingCoord | src/index.js:97-98 | The double JavaScript remainder yields the mathematical `(c - origin) mod size`, inside `[0, size)` |
| Areas.TilingCoordIsModulo | src/index.js:97-98 | `((a % s) + s) % s` with JavaScript `%` equals `a mod s`, for negative `a` as well |
| Areas.GetTilingTileData | src/index.js:95-101 | The pattern tile at `((x-originX) mod width, (y-originY) mod height)` |
| Areas.TilingPeriodic | src/index.js:95-101 | Moving the sampled position by any integer multiple of the pattern width or height, negative included, gives the same tile |
| Areas.TilingInsidePattern | src/index.js:95-101 | Inside the copy of the pattern anchored at the origin, the tiling reads the pattern at the offset from the origin |
| Areas.MergeTileAreas | src/index.js:114-133 | The result has area1's size. Each cell covered by area2 takes area2's tile unless skipEmpty is set and its id is -1; every other cell keeps area1's tile. Out-of-range cells are skipped without error, and area1 is a value, so it is not modified |
| FloodFill.FillTileAreaAt | src/index.js:143-209 | RangeError exactly when the start cell is outside the area. Otherwise it returns an area of the same size. A cell is painted with the fill pattern tiled from the start cell exactly when it is 4-connected to the start through cells equal to the start tile in both ids; every other cell is unchanged. The start cell gets the pattern's tile (0, 0). The loop terminates even when the pattern repeats the target tile |
| FloodFill.UniformGridConnected | src/index.js:143-209 | On a grid whose cells all equal the start tile, every cell is connected to the start, so the fill paints the whole grid |
| FloodFill.TestSeed | src/index.js:153-163 | testSeed either leaves the queue as it is or appends the neighbour, which is then a target cell. When the tested cell is a target, the neighbour's run is left pending: it is either queued or reached through the cell to its left |
| FloodFill.ConnectedStep | src/index.js:143-209 | A target cell adjacent to a connected cell is connected |
| FloodFill.ClosedHoldsPath | src/index.js:170-206 | Every path through target cells from the start ends inside any set that holds the start and whose cells all have their target neighbours settled in it |
| FloodFill.FillComplete | src/index.js:170-206 | When the queue is empty, the applied cells are exactly the cells connected to the start |
| FloodFill.FillStep | src/index.js:170-206 | One pass of the while loop: the first seed is skipped when already applied, otherwise its run is scanned and painted. Every applied cell stays connected to the start and holds its tiling tile, the applied set only grows, and either it grows or the queue shrinks, so the loop ends |
| FloodFill.Visit | src/index.js:180-182 | One scanned cell is recorded and the cells above and below are queued by the new-span rule, every queued cell connected to the start |
| FloodFill.ScanRight | src/index.js:179-184 | The do-while scan records the seed and every cell to its right up to the first cell that is not a target. The queue only grows, and every queued seed is connected to the start |
| FloodFill.ScanLeft | src/index.js:186-193 | The left scan extends the recorded run leftwards up to the first cell that is not a target. The queue only grows, and every queued seed is connected to the start |
| FloodFill.ApplyPositions | src/index.js:196-204 | The applied set grows by exactly the recorded positions. Every applied cell holds its tiling tile, and every other cell keeps the original tile |
| TileAreas.TileArea.constructor | src/tilearea.js:12-23 | Stores the width, height and tiles array as given |
| TileAreas.TileArea.InRange | src/tilearea.js:87-93 | With the default 1 × 1 size, the test holds exactly for cells in the grid |
| TileAreas.TileArea.GetTileIndex | src/tilearea.js:33-38 | `Ok(y*width + x)` exactly for in-grid cells, whose coordinates the index gives back; RangeError otherwise |
| TileAreas.TileArea.GetTileArea | src/tilearea.js:50-61 | RangeError unless w, h > 0 and the whole rectangle is inside. Otherwise a new w × h area whose slot (i, j) holds the same tile object as this area's (x+i, y+j) |
| TileAreas.TileArea.InsertTileArea | src/tilearea.js:73-85 | In place: every cell the other area covers holds the other's tile object, unless skipEmpty is set and its id is -1. Every other cell keeps its tile, nothing is thrown for partial overlap, and the size and array length are unchanged |
| TileAreas.TileArea.InsertOne | src/tilearea.js:76-82 | One try block: the target cell takes the source tile or keeps its own, and every other cell is unchanged |
| Tiles.ParseInt | src/tile.js:24-25 | `parseInt` never yields undefined |
| Tiles.IndexOf | src/tile.js:23 | `indexOf` gives -1 exactly when the character is absent, otherwise the position of its first occurrence |
| Tiles.ParseIntBlank | src/tile.js:24-25 | `parseInt` of text that is empty after trimming white space is NaN |
| Tiles.ParseIntBareHex | src/tile.js:24-25 | `parseInt` of a bare "0x" is NaN: the prefix needs a hex digit after it |
| Tiles.ParseIntNoDigit | src/tile.js:24-25 | `parseInt` of text whose first non-space character is neither a digit nor a sign is NaN |
| Tiles.ParseIntLeadingDigit | src/tile.js:24-25 | `parseInt` of text whose first non-space character is a digit from 1 to 9 is a number |
| Tiles.ParseTileStringAtColon | src/tile.js:22-25 | With a colon, the tile id parses from the text before the first colon and the tileset id from the text after it |
| Tiles.ParseTileString | src/tile.js:22-25 | Without a colon, the tile id parses from the empty string (NaN) and the tileset id from the whole string |
| Tiles.ParseIntOfNumber | src/tile.js:24-25 | Parsing the decimal text of an id gives the id back; NaN and undefined both come back as NaN |
| Tiles.CompactRoundTrip | src/tile.js:22-61 | Parsing `tileId + ":" + tilesetId` restores both ids |
| Tiles.UpdateId | src/tile.js:43-50 | The id changes only when a value is supplied and it is `>= 0` or replaceEmpty is set; the stored value is then `max(value, -1)` |
| Tiles.UpdateIdIdempotent | src/tile.js:43-50 | Repeating the same setData changes nothing more |
| Tiles.Tile.constructor | src/tile.js:13-34 | From a string: the ids parsed around the first colon and a new empty properties map. From an object: its ids copied, and its properties map shared when present, a new empty one otherwise |
| Tiles.Tile.SetData | src/tile.js:43-50 | Each id is updated by the setData rule, with an absent tileset id kept; the properties are untouched |
| Tiles.Tile.ToJSON | src/tile.js:58-64 | The compact string exactly when the properties map is empty, and that string parses back to both ids |
| Tiles.Tile.Clone | src/tile.js:71-73 | A new, distinct tile with equal ids sharing the same properties map |
| Properties.KeyIndex | src/propertyObject.js:36 | The position of the first entry with the key, or the length when there is none |
| Properties.Put | src/propertyObject.js:63 | Map.prototype.set: an existing key keeps its position and the length is unchanged; a new key is appended |
| Properties.PutThenLookup | src/propertyObject.js:34-63 | After a set, get of the same key gives the value just set |
| Properties.PutOtherLookup | src/propertyObject.js:34-63 | A set leaves what get answers for every other key unchanged |
| Properties.PutExistingKeepsOrder | src/propertyObject.js:44-63 | Overwriting a key keeps every entry's position and every other value |
| Properties.KeyIndexAt | src/propertyObject.js:36 | The first entry with the key is found where it is |
| Properties.Build | src/propertyObject.js:20-25 | Setting a list of pairs in order leaves each key once |
| Properties.BuildLastWins | src/propertyObject.js:20-25 | After construction, get of a key gives the value of the last pair with that key |
| Properties.PropertyObject.Create | src/propertyObject.js:20-25 | TypeError exactly when the list is missing or some pair has a non-string key or an unserialisable value; otherwise the entries after setting every pair in order |
| Properties.PropertyObject.Get | src/propertyObject.js:34-37 | TypeError exactly for a non-string key; otherwise the stored value, present exactly when the key was set |
| Properties.PropertyObject.GetAll | src/propertyObject.js:44-50 | The stored (key, value) pairs, in insertion order |
| Properties.PropertyObject.Set | src/propertyObject.js:61-67 | TypeError, with nothing changed, exactly when the key is not a string or the value does not serialise. Otherwise Map.prototype.set, the empty key included; keys stay distinct |
| Properties.PropertyObject.ToJSON | src/propertyObject.js:74-76 | Exactly what getAll gives |
| Layers.LayerName | src/tilelayer.js:19 | A non-empty given name is kept; a missing or empty one becomes "Tilelayer" |
| Layers.CellCount | src/tilelayer.js:24-25 | The nested loops run a positive number of times exactly when both parent sizes are present and positive |
| Layers.BuiltFromAppend | src/tilelayer.js:26-31 | Pushing the tile built from the next source keeps every tile built from its own index |
| Layers.TileLayer.Create | src/tilelayer.js:16-41 | TypeError exactly when options.tiles is shorter than the parent's width × height. Otherwise exactly width × height fresh tiles, tile i built from `options.tiles[i]` (or from `{}` without tiles), the name defaulted, the properties given or new, and the parent size stored |
| Layers.TileLayer.BuildTiles | src/tilelayer.js:24-33 | The nested loops build exactly width × height fresh tiles, tile i from its own index of options.tiles, or stop exactly when options.tiles is too short |
| Layers.TileLayer.BuildRow | src/tilelayer.js:25-32 | One row of the inner loop appends `width` fresh tiles built from their own indices, or stops when options.tiles runs out |
| Layers.TileLayer.GetTileIndex | src/tilelayer.js:51-56 | As written: RangeError exactly when `x < 0`, `x >= _width`, `y < 0` or `y > _height`; otherwise `y*_width + x` |
| Layers.TileLayer.GetTileIndexIntended | src/tilelayer.js:51-56 | With `y >= _height`: Ok exactly for in-grid cells, and every index names a tile |
| Layers.GetTileIndexPastEnd | src/tilelayer.js:52 | `getTileIndex(0, _height)` passes and returns `_width*_height`, one row past the tiles; the intended check rejects it |
| Maps.MapName | src/tilemap.js:22 | A non-empty given name is kept; a missing or empty one becomes "Tilemap" |
| Maps.TileMap.constructor | src/tilemap.js:19-49 | Name defaulted and sizes copied unchanged. There is one layer per entry of options.layers, in order, and the layers are pairwise distinct. Each is a new object named "Tilelayer", sized by its own entry (not the map), with a new empty properties map and one new tile per cell with `undefined` ids and a new empty properties map. The map's properties are given or new |
| Maps.TileMap.CreateLayer | src/tilemap.js:58-62 | Appends exactly one new layer built with the given entry as parent and no options, and returns it: default name, the entry's size, a new empty properties map, new tiles with `undefined` ids and new empty properties maps. Earlier layers and other fields are unchanged |
| Events.EventEmitter.constructor | src/event.js:3-5 | A new emitter has no listeners |
| Events.MatchIndices | src/event.js:17-22 | Exactly the indices of the matching registrations, ascending |
| Events.RemoveAt | src/event.js:24 | `splice(i, 1)` removes one entry, or nothing past the end |
| Events.EventEmitter.On | src/event.js:7-14 | TypeError with nothing changed exactly for a non-string event or a non-function listener; otherwise one registration appended |
| Events.EventEmitter.Off | src/event.js:16-26 | As written: the collected ascending indices spliced out one after another |
| Events.EventEmitter.OffIntended | src/event.js:16-26 | The same indices spliced from the highest down: exactly the non-matching registrations remain, in order |
| Events.EventEmitter.CollectMatches | src/event.js:17-22 | The forEach collects exactly the matching indices |
| Events.EventEmitter.Emit | src/event.js:28-34 | The listeners registered under the event, once per registration, in registration order; the list is unchanged |
| Events.OnThenEmit | src/event.js:13-34 | A listener registered with on is the last one emit calls for its event |
| Events.OnOtherThenEmit | src/event.js:13-34 | A registration under another event changes nothing emit calls |
| Events.TriggeredRegistered | src/event.js:28-34 | Every listener emit calls is registered under that event |
| Events.SpliceFromEndRemovesMatches | src/event.js:23-25 | Splicing the match indices from the end removes exactly the matches |
| Events.AtMostOneMatchRemoved | src/event.js:16-26 | With at most one match, off as written removes exactly the matches |
| Events.OffShiftCounterexample | src/event.js:23-25 | On `[A, A, B]`, off(A) as written leaves `[A]`, whereas removing the matches leaves `[B]` |
| Observables.SpliceStart | src/observableArray.js:48 | The built-in splice's start clamps into `[0, length]` |
| Observables.SpliceCount | src/observableArray.js:48 | The built-in splice removes at most what lies after the start |
| Observables.SpliceInRange | src/observableArray.js:48 | For `0 <= i <= i+n <= length`, splice leaves `old[..i] + items + old[i+n..]`, and the length changes by `|items| - n` |
| Observables.SpliceBalanced | src/observableArray.js:39-49 | The on and off calls a splice makes change the log's net count (on calls minus off calls) by exactly the change in length |
| Observables.NetOns | src/observableArray.js:40-42 | Each logged on call raises the log's net count (on calls minus off calls) by one |
| Observables.NetOffs | src/observableArray.js:44-46 | Each logged off call lowers the log's net count (on calls minus off calls) by one |
| Observables.ObservableArray.constructor | src/observableArray.js:19-24 | An empty array with no calls made, holding the event name and callback |
| Observables.ObservableArray.Splice | src/observableArray.js:39-49 | One on per inserted item, in order, then one off per element of `old[index..index+howMany)`, then the built-in splice. TypeError from the first on for a bad name or callback, or from off on a missing element; either leaves the contents as they were. After a successful splice, the log's net count of on calls minus off calls still equals the length when it did before |
| Observables.ObservableArray.CallOns | src/observableArray.js:40-42 | on for every inserted item in order, or TypeError at the first |
| Observables.ObservableArray.CallOffs | src/observableArray.js:44-46 | off for every element from index to index + howMany, stopping at the first missing one |
| Observables.ObservableArray.Push | src/observableArray.js:30-32 | As written: the items go in before the last element, or at the front of an empty array; off is never called |
| Observables.ObservableArray.PushIntended | src/observableArray.js:30-32 | The items appended at the end, with one on each |
| Observables.PushedBeforeLast | src/observableArray.js:31 | Push as written keeps the length sum and leaves the old last element last |
| Observables.PushSplice | src/observableArray.js:31 | `splice(length - 1, 0, ...items)` is exactly insertion before the last element and calls no off |
| Observables.PushCounterexample | src/observableArray.js:31 | Pushing 8 onto `[7]` gives `[8, 7]`, not `[7, 8]` |
| MapObjects.WithDefaults | src/mapObject.js:19 | Missing fields, or a missing options object, default to name "", x 0, y 0, width 1, height 1; supplied fields are kept |
| MapObjects.MapObject.Create | src/mapObject.js:19-38 | RangeError exactly when the width or height is not positive. Otherwise a fresh object whose name, position and size are the defaulted options unchanged, and a negative position is accepted |
| MapObjects.MapObject.AsOptions | src/mapObject.js:54 | The object's own fields passed back as constructor options |
| MapObjects.MapObject.Clone | src/mapObject.js:53-55 | A distinct fresh object with equal name, position and size, or the constructor's RangeError when the size has since become invalid |

## Left out

- The bucket fill records visited cells as coordinate pairs, not as the numbers `y*width + x`. The two agree for every cell inside the area, which is the only kind the fill visits.
- FloodFill.FillTileAreaAt requires a valid fill pattern whose width and height are both positive. With a zero size JavaScript computes `% 0` and reads `NaN` positions, and with a short tiles list it reads missing tiles; neither is modelled.
- Areas.GetTilingTileData requires a valid pattern with positive width and height. On a 0 × 0 pattern JavaScript computes `% 0`, gets `NaN` coordinates that pass the range check, and returns `{...undefined}`, an empty object; a pattern of negative size can make its `getTileIndex` throw RangeError. Neither case is modelled.
- Areas.GetTile, Areas.GetTileAreaSlice, Areas.MergeTileAreas and FloodFill.FillTileAreaAt require areas whose tile count matches their size, as `createTileArea` produces. Reading a missing slot of a malformed area (`{...undefined}`) is not modelled.
- TileAreas.TileArea.GetTileArea and TileAreas.TileArea.InsertTileArea require both areas to be valid (a tiles array of width × height slots), although the `TileArea` constructor stores any array unchecked. Reading a missing slot of a malformed area is not modelled.
- TileAreas.TileArea.InsertTileArea requires the inserted area to have its own tiles array. Inserting an area into itself, where writes are seen by later reads, is not modelled.
- TileAreas.TileArea and the areas of `src/index.js` take integer coordinates. Fractional or `NaN` coordinates and sizes are not modelled.
- Numbers are unbounded integers. There is no IEEE double rounding and no exponent notation in `tileId + ":" + tilesetId`.
- Tiles.Tile.SetData takes integer ids. Non-number arguments and the `>=` coercions they trigger are not modelled. `null` and `undefined` tileset ids both become the absent case.
- A tile's properties are a JavaScript `Map`, of which the code only reads `size`. The model keeps only that size, fixed when the map is made: no modelled operation adds to a map, and changes callers make through the public `properties` field are not modelled.
- Property values form a closed set of JSON-like values plus `Function` and `Undefined`. These two stand for every value whose `JSON.stringify` result is falsy. Cyclic objects and `BigInt` are not modelled, and nothing is serialised to text.
- `TileMap.getJSON` and its underscore-key filter (src/tilemap.js:69-76) are not modelled.
- `src/tileset.js` is not modelled. It is a record of defaulted fields, and no modelled code uses it.
- MapObjects.MapObject.Create does not model the property object or the `forward` call at src/mapObject.js:42-45. As written, `new PropertyObject(undefined)` throws when no properties are given, and `forward` is not defined by the `EventEmitter` base. So every construction that passes the size check throws `TypeError`. The model stops after the geometry, and the `EventEmitter` base of `MapObject` is not modelled.
- Maps.TileMap.constructor does not model the write-back of the `options.layers || []` default into the caller's options object.
- Maps.TileMap.constructor allocates a new properties map before it knows whether one is given. This is unobservable.
- The `ObservableArray` items are emitter ids. Their on and off calls are kept in a call log, not performed on `EventEmitter` objects.
- Observables.ObservableArray.Splice and Observables.SpliceBalanced count calls, not listeners. On a real `EventEmitter` one `off` can remove several registrations, or the wrong ones (see Findings), so the net count of the log is not the number of listeners left on the items. It is also a total over all items, not a count per item.
- The built-in `Array.prototype.splice` is modelled by its clamping of start and count. Its species constructor and its returned array of removed elements are not modelled, since the code ignores that array.
- `Events.EventEmitter.Emit` returns the ids of the listeners it calls. The argument passed to them, and listeners that change the list during an emit, are not modelled.
- Events.EventEmitter.Emit always reports every listener registered under the event. A listener that throws ends the loop early in JavaScript, and the exception reaches the caller of `emit`. Listeners are ids here and never throw, so this is not modelled.
- A `null` or `undefined` options object where the code would throw on property access (`new Tile()`, `new TileMap()`) is not modelled.
- Where the tests describe behaviour the code does not have, the model follows the code. The affected behaviour is default `-1` tile ids, `emitEvents`, `PropertyObject.remove` and change events, empty-key skipping, `offAll`/`forward`, append order in `push`, and `{model: {item, index}}` wrapping.

## Findings

| source | as written | input that shows it | evidently intended | confidence | as-written member | corrected member |
|---|---|---|---|---|---|---|
| src/event.js:23-25 | `off` splices the collected indices in ascending order, and each splice shifts the later entries down | listeners `[A, A, B]`, `off(A)` leaves `[A]` | every matching registration removed, the others kept: `[B]` | high, not executed | Events.EventEmitter.Off, Events.OffShiftCounterexample | Events.EventEmitter.OffIntended |
| src/observableArray.js:31 | `push` splices at `length - 1`, inserting before the last element | `push(8)` on `[7]` gives `[8, 7]` | append at the end: `[7, 8]` | high, not executed | Observables.ObservableArray.Push, Observables.PushCounterexample | Observables.ObservableArray.PushIntended |
| src/tilelayer.js:52 | `getTileIndex` rejects only `y > _height` | on a 2 × 2 layer, `getTileIndex(0, 2)` returns 4, past the four tiles | reject `y >= _height` | high, not executed | Layers.TileLayer.GetTileIndex, Layers.GetTileIndexPastEnd | Layers.TileLayer.GetTileIndexIntended |
