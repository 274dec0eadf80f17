/**
 * MapObject (src/mapObject.js): a named rectangle placed freely on a map.
 * Positions and sizes are JavaScript numbers, here reals; nothing computes
 * with them beyond the size check.
 */
module MapObjects {
  import opened Wrappers

  /** The destructured options; a missing field takes its default. */
  datatype MapObjectOptions = MapObjectOptions(
    name: Option<string>,
    x: Option<real>,
    y: Option<real>,
    width: Option<real>,
    height: Option<real>)

  function OrElse<T>(o: Option<T>, default: T): (r: T)
    ensures o.Some? ==> r == o.value
    ensures o.None? ==> r == default
  {
    if o.Some? then o.value else default
  }

  /** The rectangle test of the constructor: a size that is zero or less is a RangeError. */
  predicate ValidSize(width: real, height: real)
  {
    width > 0.0 && height > 0.0
  }

  /** A name, a position and a size. */
  datatype Shape = Shape(name: string, x: real, y: real, width: real, height: real)

  /** The destructuring with defaults `{ name = "", x = 0, y = 0, width = 1, height = 1 } = {}`. */
  function WithDefaults(options: Option<MapObjectOptions>): (d: Shape)
    ensures options.None? ==> d == Shape("", 0.0, 0.0, 1.0, 1.0)
    ensures options.Some? ==>
      d.name == OrElse(options.value.name, "") &&
      d.x == OrElse(options.value.x, 0.0) && d.y == OrElse(options.value.y, 0.0) &&
      d.width == OrElse(options.value.width, 1.0) && d.height == OrElse(options.value.height, 1.0)
  {
    var o := OrElse(options, MapObjectOptions(None, None, None, None, None));
    Shape(OrElse(o.name, ""), OrElse(o.x, 0.0), OrElse(o.y, 0.0), OrElse(o.width, 1.0), OrElse(o.height, 1.0))
  }

  class MapObject {
    var name: string
    var x: real
    var y: real
    var width: real
    var height: real

    constructor Init(name: string, x: real, y: real, width: real, height: real)
      ensures this.name == name && this.x == x && this.y == y
      ensures this.width == width && this.height == height
    {
      this.name := name;
      this.x := x;
      this.y := y;
      this.width := width;
      this.height := height;
    }

    /**
     * The constructor: defaults name "", x 0, y 0, width 1, height 1 for
     * missing fields (and for a missing options object); RangeError when
     * the width or the height is not positive. The position is not checked.
     */
    static method Create(options: Option<MapObjectOptions>) returns (r: Result<MapObject>)
      ensures r.Ok? <==> ValidSize(WithDefaults(options).width, WithDefaults(options).height)
      ensures r.Err? ==> r.error == RangeError
      ensures r.Ok? ==> fresh(r.value) && r.value.Fields() == WithDefaults(options)
    {
      var d := WithDefaults(options);
      if d.width <= 0.0 || d.height <= 0.0 {
        return Err(RangeError);
      }
      var created := new MapObject.Init(d.name, d.x, d.y, d.width, d.height);
      r := Ok(created);
    }

    /** The five fields of this object. */
    function Fields(): Shape
      reads this
    {
      Shape(name, x, y, width, height)
    }

    /** The fields of this object as constructor options. */
    function AsOptions(): (o: MapObjectOptions)
      reads this
      ensures o.name == Some(name) && o.x == Some(x) && o.y == Some(y)
      ensures o.width == Some(width) && o.height == Some(height)
    {
      MapObjectOptions(Some(name), Some(x), Some(y), Some(width), Some(height))
    }

    /**
     * clone: the constructor run on this object's own fields: a distinct
     * object with the same name, position and size, or the constructor's
     * RangeError when the size has since been made invalid.
     */
    method Clone() returns (r: Result<MapObject>)
      ensures r.Ok? <==> ValidSize(width, height)
      ensures r.Err? ==> r.error == RangeError
      ensures r.Ok? ==> fresh(r.value) && r.value != this
      ensures r.Ok? ==> r.value.Fields() == Fields()
    {
      r := Create(Some(AsOptions()));
    }
  }
}
