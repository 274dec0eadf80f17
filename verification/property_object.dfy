/**
 * PropertyObject (src/propertyObject.js): string-keyed properties held in a
 * JavaScript Map, which remembers the order in which keys were first set.
 * The Map is modelled as a list of (key, value) entries with distinct keys,
 * in insertion order.
 */
module Properties {
  import opened Wrappers

  /**
   * A JavaScript value as far as properties care. JSON.stringify yields
   * undefined, a falsy result, for a function and for undefined itself;
   * every other value here has a non-empty serialisation.
   */
  datatype Value =
    | Null
    | Bool(b: bool)
    | Number(n: int)
    | Str(s: string)
    | List(items: seq<Value>)
    | Record(fields: seq<(string, Value)>)
    | Function(id: nat)
    | Undefined

  /** The test set() applies to a value before storing it. */
  predicate Serialisable(v: Value)
  {
    !v.Function? && !v.Undefined?
  }

  /** A key as a caller passes it: a string, or any value of another type. */
  datatype Key = Text(s: string) | NotText

  type Entries = seq<(string, Value)>

  /** No key occurs twice, as in a Map. */
  predicate DistinctKeys(e: Entries)
  {
    forall i, j :: 0 <= i < j < |e| ==> e[i].0 != e[j].0
  }

  predicate HasKey(e: Entries, k: string)
  {
    exists i :: 0 <= i < |e| && e[i].0 == k
  }

  /** Position of the first entry for key k, or |e| when there is none. */
  function KeyIndex(e: Entries, k: string): (i: nat)
    ensures i <= |e|
    ensures i < |e| ==> e[i].0 == k
    ensures forall j :: 0 <= j < i ==> e[j].0 != k
  {
    if |e| == 0 then 0
    else if e[0].0 == k then 0
    else 1 + KeyIndex(e[1..], k)
  }

  /** Map.prototype.get. */
  function Lookup(e: Entries, k: string): Option<Value>
  {
    var i := KeyIndex(e, k);
    if i < |e| then Some(e[i].1) else None
  }

  /**
   * Map.prototype.set: an existing key keeps its position and takes the new
   * value; a new key goes at the end.
   */
  function Put(e: Entries, k: string, v: Value): (r: Entries)
    ensures HasKey(e, k) ==> |r| == |e|
    ensures !HasKey(e, k) ==> r == e + [(k, v)]
  {
    var i := KeyIndex(e, k);
    if i < |e| then e[i := (k, v)] else e + [(k, v)]
  }

  /** After a set, get of the same key gives the value just set. */
  lemma PutThenLookup(e: Entries, k: string, v: Value)
    ensures Lookup(Put(e, k, v), k) == Some(v)
  {
    var i := KeyIndex(e, k);
    var r := Put(e, k, v);
    if i < |e| {
      assert KeyIndex(r, k) == i by { KeyIndexAt(r, k, i); }
    } else {
      assert KeyIndex(r, k) == |e| by { KeyIndexAt(r, k, |e|); }
    }
  }

  /** A set of one key leaves what get answers for every other key. */
  lemma PutOtherLookup(e: Entries, k: string, v: Value, k': string)
    requires k' != k
    ensures Lookup(Put(e, k, v), k') == Lookup(e, k')
  {
    var i := KeyIndex(e, k);
    var j := KeyIndex(e, k');
    var r := Put(e, k, v);
    if j < |e| {
      KeyIndexAt(r, k', j);
    } else {
      assert !HasKey(r, k');
      NoKeyIndex(r, k');
    }
  }

  /** A set keeps the keys distinct. */
  lemma PutDistinct(e: Entries, k: string, v: Value)
    requires DistinctKeys(e)
    ensures DistinctKeys(Put(e, k, v))
  {
  }

  /** Overwriting a key keeps every entry where it was and every other value as it was. */
  lemma PutExistingKeepsOrder(e: Entries, k: string, v: Value)
    requires DistinctKeys(e) && HasKey(e, k)
    ensures var r := Put(e, k, v);
      |r| == |e| &&
      forall i :: 0 <= i < |e| ==> r[i].0 == e[i].0 && (e[i].0 != k ==> r[i].1 == e[i].1)
  {
    var i := KeyIndex(e, k);
    assert i < |e|;
  }

  /** KeyIndex finds an entry for k at position i when no earlier entry has key k. */
  lemma {:induction false} KeyIndexAt(e: Entries, k: string, i: nat)
    requires i <= |e| && (i < |e| ==> e[i].0 == k)
    requires forall j :: 0 <= j < i ==> e[j].0 != k
    ensures KeyIndex(e, k) == i
  {
    if |e| > 0 && e[0].0 != k {
      KeyIndexAt(e[1..], k, i - 1);
    }
  }

  lemma NoKeyIndex(e: Entries, k: string)
    requires !HasKey(e, k)
    ensures KeyIndex(e, k) == |e|
  {
  }

  /** The entries after setting every pair of a list in order. */
  function Build(pairs: Entries): (r: Entries)
    ensures DistinctKeys(r)
  {
    if |pairs| == 0 then []
    else
      var p := pairs[|pairs| - 1];
      PutDistinct(Build(pairs[..|pairs| - 1]), p.0, p.1);
      Put(Build(pairs[..|pairs| - 1]), p.0, p.1)
  }

  /** The value of the last pair in the list with key k, if any. */
  function LastValue(pairs: Entries, k: string): Option<Value>
  {
    if |pairs| == 0 then None
    else if pairs[|pairs| - 1].0 == k then Some(pairs[|pairs| - 1].1)
    else LastValue(pairs[..|pairs| - 1], k)
  }

  /** Building from pairs, the last pair with a key wins. */
  lemma {:induction false} BuildLastWins(pairs: Entries, k: string)
    ensures Lookup(Build(pairs), k) == LastValue(pairs, k)
  {
    if |pairs| > 0 {
      var p := pairs[|pairs| - 1];
      if p.0 == k {
        PutThenLookup(Build(pairs[..|pairs| - 1]), k, p.1);
      } else {
        PutOtherLookup(Build(pairs[..|pairs| - 1]), p.0, p.1, k);
        BuildLastWins(pairs[..|pairs| - 1], k);
      }
    }
  }

  /** Every pair of the list has a string key and a serialisable value. */
  predicate AllAccepted(pairs: seq<(Key, Value)>)
  {
    forall i :: 0 <= i < |pairs| ==> pairs[i].0.Text? && Serialisable(pairs[i].1)
  }

  /** The pairs with their keys as strings. */
  function Unkeyed(pairs: seq<(Key, Value)>): (r: Entries)
    requires AllAccepted(pairs)
    ensures |r| == |pairs| && forall i :: 0 <= i < |pairs| ==> r[i] == (pairs[i].0.s, pairs[i].1)
  {
    if |pairs| == 0 then [] else Unkeyed(pairs[..|pairs| - 1]) + [(pairs[|pairs| - 1].0.s, pairs[|pairs| - 1].1)]
  }

  /** The first i + 1 pairs are accepted exactly when the first i are and pair i is; a rejected pair rejects the list. */
  lemma AcceptedStep(ps: seq<(Key, Value)>, i: nat)
    requires i < |ps| && AllAccepted(ps[..i])
    ensures AllAccepted(ps[..i + 1]) <==> ps[i].0.Text? && Serialisable(ps[i].1)
    ensures !(ps[i].0.Text? && Serialisable(ps[i].1)) ==> !AllAccepted(ps)
  {
    var q := ps[..i + 1];
    assert q[i] == ps[i];
    if ps[i].0.Text? && Serialisable(ps[i].1) {
      forall k | 0 <= k < |q|
        ensures q[k].0.Text? && Serialisable(q[k].1)
      {
        if k < i {
          assert q[k] == ps[..i][k];
        }
      }
    }
  }

  /** Setting pair i extends the entries built from the first i pairs. */
  lemma BuildStep(ps: seq<(Key, Value)>, i: nat)
    requires i < |ps| && AllAccepted(ps[..i + 1])
    ensures AllAccepted(ps[..i])
    ensures Build(Unkeyed(ps[..i + 1])) == Put(Build(Unkeyed(ps[..i])), ps[i].0.s, ps[i].1)
  {
    assert ps[..i + 1][..i] == ps[..i];
    var u := Unkeyed(ps[..i + 1]);
    assert u[..i] == Unkeyed(ps[..i]);
  }

  class PropertyObject {
    var entries: Entries

    predicate Valid()
      reads this
    {
      DistinctKeys(entries)
    }

    /** A property object with no properties yet. */
    constructor ()
      ensures entries == [] && Valid()
    {
      entries := [];
    }

    /**
     * The constructor: iterate the pairs, calling set on each. Iterating a
     * missing list throws TypeError, and so does the first rejected pair.
     */
    static method Create(pairs: Option<seq<(Key, Value)>>) returns (r: Result<PropertyObject>)
      ensures r.Ok? <==> pairs.Some? && AllAccepted(pairs.value)
      ensures r.Err? ==> r.error == TypeError
      ensures r.Ok? ==> fresh(r.value) && r.value.Valid()
      ensures r.Ok? ==> r.value.entries == Build(Unkeyed(pairs.value))
    {
      if pairs.None? {
        return Err(TypeError);
      }
      var ps := pairs.value;
      var p := new PropertyObject();
      var i := 0;
      while i < |ps|
        invariant 0 <= i <= |ps| && p.Valid()
        invariant AllAccepted(ps[..i])
        invariant p.entries == Build(Unkeyed(ps[..i]))
      {
        var outcome := p.Set(ps[i].0, ps[i].1);
        AcceptedStep(ps, i);
        if outcome.Fail? {
          return Err(TypeError);
        }
        BuildStep(ps, i);
        i := i + 1;
      }
      assert ps[..i] == ps;
      r := Ok(p);
    }

    /** get: TypeError for a key that is not a string, otherwise the stored value if there is one. */
    function Get(key: Key): (r: Result<Option<Value>>)
      reads this
      ensures r.Err? <==> key.NotText?
      ensures r.Err? ==> r.error == TypeError
      ensures r.Ok? ==> (r.value.Some? <==> HasKey(entries, key.s))
      ensures r.Ok? && r.value.Some? ==> (key.s, r.value.value) in entries
    {
      if key.NotText? then Err(TypeError) else Ok(Lookup(entries, key.s))
    }

    /** getAll: the [key, value] pairs, in the Map's order. */
    method GetAll() returns (all: Entries)
      ensures all == entries
    {
      all := [];
      var i := 0;
      while i < |entries|
        invariant 0 <= i <= |entries| && all == entries[..i]
      {
        all := all + [entries[i]];
        i := i + 1;
      }
    }

    /**
     * set: store the value under the key when the key is a string and the
     * value serialises; TypeError with nothing changed otherwise.
     */
    method Set(key: Key, value: Value) returns (r: Outcome)
      requires Valid()
      modifies this
      ensures Valid()
      ensures r.Fail? <==> key.NotText? || !Serialisable(value)
      ensures r.Fail? ==> r.error == TypeError && entries == old(entries)
      ensures r.Pass? ==> entries == Put(old(entries), key.s, value)
    {
      if key.Text? && Serialisable(value) {
        PutDistinct(entries, key.s, value);
        entries := Put(entries, key.s, value);
        r := Pass;
      } else {
        r := Fail(TypeError);
      }
    }

    /** toJSON: the same list getAll gives. */
    method ToJSON() returns (json: Entries)
      ensures json == entries
    {
      json := GetAll();
    }
  }
}
