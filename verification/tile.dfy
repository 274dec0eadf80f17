/**
 * The Tile class of src/tile.js: a tile id and a tileset id, built from a
 * "tileId:tilesetId" string or from an options object, with the setData
 * update rules and the compact string form used for JSON.
 */
module Tiles {
  import opened Wrappers

  /** A JavaScript value stored in a tile id: an integer, NaN, or undefined. */
  datatype Num = Int(n: int) | NaN | Undefined

  /**
   * The Map a tile keeps its custom properties in; only its size is read.
   * No modelled operation adds to a map, so the size is fixed when the map
   * is made.
   */
  class PropertyMap {
    const size: nat

    constructor ()
      ensures size == 0
    {
      size := 0;
    }
  }

  /** The constructor's argument: a plain string, or an object (another Tile included). */
  datatype TileOptions =
    | FromString(text: string)
    | FromObject(tileId: Num, tilesetId: Num, properties: Option<PropertyMap>)

  /** What toJSON hands to JSON.stringify: the compact string, or the tile object itself. */
  datatype TileJson = Compact(text: string) | Whole

  // ---------------------------------------------------------------------
  // parseInt and number formatting

  /** The characters parseInt skips at the start (white space and line terminators). */
  predicate IsJsSpace(c: char)
  {
    c == ' ' || c == '\t' || c == '\n' || c == '\U{0B}' || c == '\U{0C}' || c == '\r' ||
    c == '\U{A0}' || c == '\U{1680}' || ('\U{2000}' <= c <= '\U{200A}') ||
    c == '\U{2028}' || c == '\U{2029}' || c == '\U{202F}' || c == '\U{205F}' ||
    c == '\U{3000}' || c == '\U{FEFF}'
  }

  function TrimStart(s: string): (r: string)
    ensures |r| <= |s| && r == s[|s| - |r|..]
    ensures |r| > 0 ==> !IsJsSpace(r[0])
    ensures |s| > 0 && !IsJsSpace(s[0]) ==> r == s
  {
    if |s| > 0 && IsJsSpace(s[0]) then TrimStart(s[1..]) else s
  }

  /** The value of c as a digit in base 36, or -1. */
  function DigitValue(c: char): (d: int)
    ensures -1 <= d < 36
    ensures '0' <= c <= '9' ==> d == c as int - '0' as int
  {
    if '0' <= c <= '9' then c as int - '0' as int
    else if 'a' <= c <= 'z' then c as int - 'a' as int + 10
    else if 'A' <= c <= 'Z' then c as int - 'A' as int + 10
    else -1
  }

  predicate IsDigit(c: char, radix: int)
  {
    0 <= DigitValue(c) < radix
  }

  /** The length of the longest prefix of s made of digits in the given radix. */
  function DigitPrefixLength(s: string, radix: int): (n: nat)
    ensures n <= |s|
    ensures forall i :: 0 <= i < n ==> IsDigit(s[i], radix)
    ensures n < |s| ==> !IsDigit(s[n], radix)
  {
    if |s| > 0 && IsDigit(s[0], radix) then 1 + DigitPrefixLength(s[1..], radix) else 0
  }

  /** The number a string of digits denotes, most significant digit first. */
  function DigitsValue(s: string, radix: int): (v: int)
    requires radix > 1 && forall i :: 0 <= i < |s| ==> IsDigit(s[i], radix)
  {
    if s == [] then 0 else DigitsValue(s[..|s| - 1], radix) * radix + DigitValue(s[|s| - 1])
  }

  /** parseInt(s) with no radix: leading white space, a sign, then the magnitude. */
  function ParseInt(s: string): (r: Num)
    ensures r != Undefined
  {
    var t := TrimStart(s);
    if |t| > 0 && t[0] == '-' then Negate(ParseMagnitude(t[1..]))
    else if |t| > 0 && t[0] == '+' then ParseMagnitude(t[1..])
    else ParseMagnitude(t)
  }

  /** parseInt of blank text is NaN. */
  lemma ParseIntBlank(s: string)
    requires TrimStart(s) == []
    ensures ParseInt(s) == NaN
  {
    ParseIntUnsigned(s);
  }

  /** parseInt of a bare "0x" is NaN: the prefix needs at least one hex digit after it. */
  lemma ParseIntBareHex(s: string)
    requires TrimStart(s) == "0x"
    ensures ParseInt(s) == NaN
  {
    ParseIntUnsigned(s);
    MagnitudeCases(TrimStart(s));
  }

  /** parseInt of text whose first non-space character is neither a digit nor a sign is NaN. */
  lemma ParseIntNoDigit(s: string)
    requires |TrimStart(s)| > 0 && !IsDigit(TrimStart(s)[0], 10) && TrimStart(s)[0] != '+' && TrimStart(s)[0] != '-'
    ensures ParseInt(s) == NaN
  {
    ParseIntUnsigned(s);
    MagnitudeCases(TrimStart(s));
  }

  /** parseInt of text whose first non-space character is a digit from 1 to 9 is a number. */
  lemma ParseIntLeadingDigit(s: string)
    requires |TrimStart(s)| > 0 && '1' <= TrimStart(s)[0] <= '9'
    ensures ParseInt(s).Int?
  {
    ParseIntUnsigned(s);
    MagnitudeCases(TrimStart(s));
  }

  /** Without a sign, parseInt reads the trimmed text as a magnitude. */
  lemma ParseIntUnsigned(s: string)
    requires TrimStart(s) == [] || (TrimStart(s)[0] != '+' && TrimStart(s)[0] != '-')
    ensures ParseInt(s) == ParseMagnitude(TrimStart(s))
  {
  }

  /** The unsigned part reads as NaN for "0x" or a non-digit start, and as a number from a digit 1 to 9. */
  lemma MagnitudeCases(t: string)
    requires |t| > 0
    ensures t == "0x" ==> ParseMagnitude(t) == NaN
    ensures !IsDigit(t[0], 10) ==> ParseMagnitude(t) == NaN
    ensures '1' <= t[0] <= '9' ==> ParseMagnitude(t).Int?
  {
    if t == "0x" {
      assert t[2..] == [];
    } else if t[0] != '0' {
      assert ParseMagnitude(t) == if DigitPrefixLength(t, 10) == 0 then NaN else Int(DigitsValue(t[..DigitPrefixLength(t, 10)], 10));
    }
  }

  function Negate(x: Num): Num
  {
    if x.Int? then Int(-x.n) else x
  }

  /** The digits after the sign: hexadecimal after a 0x or 0X prefix, decimal otherwise; NaN when there are none. */
  function ParseMagnitude(rest: string): (r: Num)
    ensures r != Undefined
  {
    var hex := |rest| >= 2 && rest[0] == '0' && (rest[1] == 'x' || rest[1] == 'X');
    var radix := if hex then 16 else 10;
    var body := if hex then rest[2..] else rest;
    var n := DigitPrefixLength(body, radix);
    if n == 0 then NaN else Int(DigitsValue(body[..n], radix))
  }

  function DigitChar(d: int): (c: char)
    requires 0 <= d < 10
    ensures '0' <= c <= '9' && DigitValue(c) == d
  {
    ('0' as int + d) as char
  }

  /** The decimal form of a natural number, without leading zeros. */
  function NatToString(n: nat): (s: string)
    ensures |s| > 0 && forall i :: 0 <= i < |s| ==> '0' <= s[i] <= '9'
    ensures s[0] == '0' ==> n == 0
  {
    if n < 10 then [DigitChar(n)] else NatToString(n / 10) + [DigitChar(n % 10)]
  }

  /** String(x) for a tile id. */
  function NumToString(x: Num): (s: string)
  {
    match x
    case Int(n) => if n < 0 then "-" + NatToString(-n) else NatToString(n)
    case NaN => "NaN"
    case Undefined => "undefined"
  }

  /** The index of the first c in s, or -1 (String.prototype.indexOf). */
  function IndexOf(s: string, c: char): (r: int)
    ensures -1 <= r < |s|
    ensures r == -1 <==> c !in s
    ensures r >= 0 ==> s[r] == c && c !in s[..r]
  {
    if |s| == 0 then -1
    else if s[0] == c then 0
    else
      var i := IndexOf(s[1..], c);
      assert forall k :: 0 <= k < i ==> s[..i + 1][k + 1] == s[1..][..i][k];
      if i < 0 then -1 else i + 1
  }

  /**
   * The ids the string constructor reads from s: parseInt of the text
   * before the first ':' and of the text after it. Without a ':' the first
   * part is empty (substring(0, -1) is "") and the second is all of s.
   */
  function ParseTileString(s: string): (ids: (Num, Num))
    ensures ':' !in s ==> ids == (NaN, ParseInt(s))
  {
    var colonIndex := IndexOf(s, ':');
    var first := if colonIndex < 0 then "" else s[..colonIndex];
    (ParseInt(first), ParseInt(s[colonIndex + 1..]))
  }

  /** With a ':' in s, the ids are parseInt of the text before the first ':' and of the text after it. */
  lemma ParseTileStringAtColon(s: string, k: int)
    requires 0 <= k < |s| && s[k] == ':' && ':' !in s[..k]
    ensures ParseTileString(s) == (ParseInt(s[..k]), ParseInt(s[k + 1..]))
  {
    FirstColon(s, k);
  }

  lemma FirstColon(s: string, k: int)
    requires 0 <= k < |s| && s[k] == ':' && ':' !in s[..k]
    ensures IndexOf(s, ':') == k
  {
    var i := IndexOf(s, ':');
    assert s[k] in s;
  }

  /** The compact form toJSON builds: tileId + ":" + tilesetId. */
  function CompactText(tileId: Num, tilesetId: Num): string
  {
    NumToString(tileId) + ":" + NumToString(tilesetId)
  }

  /** The compact text of tile 456 in tileset 3 is "456:3"; an undefined id prints as "undefined". */
  lemma CompactTextExample()
    ensures CompactText(Int(456), Int(3)) == "456:3"
    ensures CompactText(Undefined, Int(-1)) == "undefined:-1"
  {
    assert NatToString(45) == "45";
    assert NatToString(456) == "456";
  }

  /** What parsing the printed form of x gives back: x itself, except that undefined reads as NaN. */
  function Reparsed(x: Num): Num
  {
    if x.Undefined? then NaN else x
  }

  // ---------------------------------------------------------------------
  // Lemmas behind the round trip

  lemma {:induction false} NatDigitsValue(n: nat)
    ensures DigitsValue(NatToString(n), 10) == n
  {
    if n >= 10 {
      var s := NatToString(n);
      NatDigitsValue(n / 10);
      assert s[..|s| - 1] == NatToString(n / 10);
    }
  }

  lemma {:induction false} AllDigitsPrefix(s: string)
    requires forall i :: 0 <= i < |s| ==> '0' <= s[i] <= '9'
    ensures DigitPrefixLength(s, 10) == |s|
  {
    if |s| > 0 {
      AllDigitsPrefix(s[1..]);
    }
  }

  /** The magnitude of a printed natural number reads back as that number. */
  lemma ParseMagnitudeOfNat(n: nat)
    ensures ParseMagnitude(NatToString(n)) == Int(n)
  {
    var digits := NatToString(n);
    AllDigitsPrefix(digits);
    NatDigitsValue(n);
    assert digits[..|digits|] == digits;
  }

  lemma ParseIntOfNonNegative(n: nat)
    ensures ParseInt(NumToString(Int(n))) == Int(n)
  {
    var digits := NatToString(n);
    assert NumToString(Int(n)) == digits;
    ParseMagnitudeOfNat(n);
    assert !IsJsSpace(digits[0]);
    assert TrimStart(digits) == digits;
  }

  lemma ParseIntOfNegative(n: nat)
    requires n > 0
    ensures ParseInt(NumToString(Int(-(n as int)))) == Int(-(n as int))
  {
    var digits := NatToString(n);
    assert NumToString(Int(-(n as int))) == "-" + digits;
    ParseIntMinus(digits);
    ParseMagnitudeOfNat(n);
  }

  /** A '-' followed by anything negates what the rest reads as. */
  lemma ParseIntMinus(d: string)
    ensures ParseInt("-" + d) == Negate(ParseMagnitude(d))
  {
    var s := "-" + d;
    assert !IsJsSpace(s[0]);
    assert TrimStart(s) == s;
    assert s[1..] == d;
  }

  /** parseInt reads the printed form of a number back as that number; NaN and undefined read as NaN. */
  lemma ParseIntOfNumber(x: Num)
    ensures ParseInt(NumToString(x)) == Reparsed(x)
  {
    match x
    case Int(n) => ParseIntOfInt(n);
    case NaN => ParseIntOfWord(NaN);
    case Undefined => ParseIntOfWord(Undefined);
  }

  lemma ParseIntOfInt(n: int)
    ensures ParseInt(NumToString(Int(n))) == Int(n)
  {
    if n < 0 {
      ParseIntOfNegative(-n);
    } else {
      ParseIntOfNonNegative(n);
    }
  }

  lemma ParseIntOfWord(x: Num)
    requires !x.Int?
    ensures ParseInt(NumToString(x)) == NaN
  {
    var w := NumToString(x);
    assert w == "NaN" || w == "undefined";
    WordIsNaN(w);
  }

  /** A word starting with a letter past 'f' has no digits in base 10 or 16. */
  lemma WordIsNaN(w: string)
    requires |w| > 0 && ('g' <= w[0] <= 'z' || 'G' <= w[0] <= 'Z')
    ensures ParseInt(w) == NaN
  {
    assert !IsJsSpace(w[0]);
    assert TrimStart(w) == w;
    assert !IsDigit(w[0], 10);
    assert DigitPrefixLength(w, 10) == 0;
  }

  lemma NumToStringNoColon(x: Num)
    ensures ':' !in NumToString(x)
  {
    match x
    case Int(n) =>
      var digits := NatToString(if n < 0 then -n else n);
      assert ':' !in digits;
    case NaN =>
    case Undefined =>
  }

  /** Parsing the compact form restores both ids (undefined comes back as NaN). */
  lemma CompactRoundTrip(tileId: Num, tilesetId: Num)
    ensures ParseTileString(CompactText(tileId, tilesetId)) == (Reparsed(tileId), Reparsed(tilesetId))
  {
    var a, b := NumToString(tileId), NumToString(tilesetId);
    var s := a + ":" + b;
    NumToStringNoColon(tileId);
    assert s[..|a|] == a;
    assert s[|a|] == ':';
    assert IndexOf(s, ':') == |a|;
    assert s[|a| + 1..] == b;
    ParseIntOfNumber(tileId);
    ParseIntOfNumber(tilesetId);
  }

  // ---------------------------------------------------------------------
  // setData

  function Max(a: int, b: int): int
  {
    if a >= b then a else b
  }

  /**
   * The setData rule for one id: a supplied value replaces the id when it
   * is at least 0, or when replaceEmpty is set, and is then stored as at
   * least -1; otherwise the id is kept.
   */
  function UpdateId(current: Num, value: Option<int>, replaceEmpty: bool): (r: Num)
    ensures value.None? ==> r == current
    ensures value.Some? && value.value >= 0 ==> r == Int(value.value)
    ensures value.Some? && value.value < 0 ==> r == if replaceEmpty then Int(-1) else current
  {
    if value.Some? && (value.value >= 0 || replaceEmpty) then Int(Max(value.value, -1)) else current
  }

  /** Applying the same setData twice changes nothing the first did not. */
  lemma UpdateIdIdempotent(current: Num, value: Option<int>, replaceEmpty: bool)
    ensures UpdateId(UpdateId(current, value, replaceEmpty), value, replaceEmpty) == UpdateId(current, value, replaceEmpty)
  {
  }

  class Tile {
    var tileId: Num
    var tilesetId: Num
    var properties: PropertyMap

    /**
     * From a string, the ids are parsed around the first ':'; from an
     * object, they are copied. The properties map is the object's own when
     * it has one, a new empty one otherwise.
     */
    constructor (options: TileOptions)
      ensures options.FromString? ==>
        (tileId, tilesetId) == ParseTileString(options.text) && fresh(properties) && properties.size == 0
      ensures options.FromObject? ==>
        tileId == options.tileId && tilesetId == options.tilesetId &&
        (options.properties.Some? ==> properties == options.properties.value) &&
        (options.properties.None? ==> fresh(properties) && properties.size == 0)
    {
      var ids: (Num, Num);
      if options.FromString? {
        ids := ParseTileString(options.text);
      } else {
        ids := (options.tileId, options.tilesetId);
      }
      var props: PropertyMap;
      if options.FromObject? && options.properties.Some? {
        props := options.properties.value;
      } else {
        props := new PropertyMap();
      }
      tileId, tilesetId, properties := ids.0, ids.1, props;
    }

    /** setData(tileId, tilesetId, replaceEmpty); an absent tilesetId (null or undefined) is None. */
    method SetData(newTileId: int, newTilesetId: Option<int>, replaceEmpty: bool)
      modifies this
      ensures tileId == UpdateId(old(tileId), Some(newTileId), replaceEmpty)
      ensures tilesetId == UpdateId(old(tilesetId), newTilesetId, replaceEmpty)
      ensures properties == old(properties)
    {
      if newTileId >= 0 || replaceEmpty {
        tileId := Int(Max(newTileId, -1));
      }
      if newTilesetId.Some? && (newTilesetId.value >= 0 || replaceEmpty) {
        tilesetId := Int(Max(newTilesetId.value, -1));
      }
    }

    /** The compact "tileId:tilesetId" string when there are no properties; the tile itself otherwise. */
    function ToJSON(): (r: TileJson)
      reads this
      ensures r.Compact? <==> properties.size == 0
      ensures r.Compact? ==> r.text == CompactText(tileId, tilesetId)
      ensures r.Compact? ==> ParseTileString(r.text) == (Reparsed(tileId), Reparsed(tilesetId))
    {
      CompactRoundTrip(tileId, tilesetId);
      if properties.size == 0 then Compact(CompactText(tileId, tilesetId)) else Whole
    }

    /** new Tile(this): a fresh tile with the same ids sharing this tile's properties map. */
    method Clone() returns (t: Tile)
      ensures fresh(t) && t != this
      ensures t.tileId == tileId && t.tilesetId == tilesetId && t.properties == properties
    {
      t := new Tile(FromObject(tileId, tilesetId, Some(properties)));
    }
  }
}
