/**
 * ObservableArray (src/observableArray.js): an array of event emitters that
 * registers one (eventName, callback) listener on every item put into it
 * and unregisters it from every item taken out. Items are emitter ids; the
 * on and off calls made on them are kept, in order, in a call log.
 */
module Observables {
  import opened Wrappers
  import Events

  /** One call the array makes on an item, always with its own event name and callback. */
  datatype Call = On(item: nat) | Off(item: nat)

  function OnCalls(items: seq<nat>): (r: seq<Call>)
    ensures |r| == |items| && forall k :: 0 <= k < |items| ==> r[k] == On(items[k])
  {
    if |items| == 0 then [] else OnCalls(items[..|items| - 1]) + [On(items[|items| - 1])]
  }

  function OffCalls(items: seq<nat>): (r: seq<Call>)
    ensures |r| == |items| && forall k :: 0 <= k < |items| ==> r[k] == Off(items[k])
  {
    if |items| == 0 then [] else OffCalls(items[..|items| - 1]) + [Off(items[|items| - 1])]
  }

  /** The number of on calls minus the number of off calls in a call log. */
  function Net(calls: seq<Call>): int
  {
    if |calls| == 0 then 0
    else Net(calls[..|calls| - 1]) + (if calls[|calls| - 1].On? then 1 else -1)
  }

  /** Where Array.prototype.splice starts: a negative index counts from the end, and both ends clamp. */
  function SpliceStart(len: nat, index: int): (r: nat)
    ensures r <= len
  {
    if index < 0 then (if len + index < 0 then 0 else len + index)
    else if index > len then len else index
  }

  /** How many elements Array.prototype.splice removes: howMany clamped to what lies after the start. */
  function SpliceCount(len: nat, start: nat, howMany: int): (r: nat)
    requires start <= len
    ensures start + r <= len
  {
    if howMany < 0 then 0 else if howMany > len - start then len - start else howMany
  }

  /** Array.prototype.splice(index, howMany, ...inserted) on the contents. */
  function JsSplice<T>(s: seq<T>, index: int, howMany: int, inserted: seq<T>): seq<T>
  {
    var start := SpliceStart(|s|, index);
    var count := SpliceCount(|s|, start, howMany);
    s[..start] + inserted + s[start + count..]
  }

  /** Whether every on call goes through: TypeError from the first item otherwise. */
  predicate OnsAccepted(eventName: Events.Name, callback: Events.Listener, inserted: seq<nat>)
  {
    |inserted| == 0 || (eventName.Named? && callback.Fn?)
  }

  /** Whether every this[i] the off loop reads is an element. */
  predicate OffsInRange(len: nat, index: int, howMany: int)
  {
    howMany <= 0 || (0 <= index && index + howMany <= len)
  }

  /** The elements the off loop reaches before it ends or reads past the array. */
  function OffReached(s: seq<nat>, index: int, howMany: int): seq<nat>
  {
    if howMany <= 0 || index < 0 || index >= |s| then []
    else if index + howMany <= |s| then s[index..index + howMany]
    else s[index..]
  }

  /** In range, splice replaces exactly the howMany elements at index by the inserted ones. */
  lemma SpliceInRange<T>(s: seq<T>, index: int, howMany: int, inserted: seq<T>)
    requires 0 <= index && 0 <= howMany && index + howMany <= |s|
    ensures JsSplice(s, index, howMany, inserted) == s[..index] + inserted + s[index + howMany..]
    ensures |JsSplice(s, index, howMany, inserted)| == |s| + |inserted| - howMany
  {
  }

  /** A splice the off loop lets through changes the length by exactly what the log's net count changes by. */
  lemma {:induction false} SpliceBalanced(s: seq<nat>, index: int, howMany: int, inserted: seq<nat>, log: seq<Call>)
    requires OffsInRange(|s|, index, howMany)
    ensures Net(log + OnCalls(inserted) + OffCalls(OffReached(s, index, howMany))) - Net(log)
         == |JsSplice(s, index, howMany, inserted)| - |s|
  {
    NetOns(log, inserted);
    NetOffs(log + OnCalls(inserted), OffReached(s, index, howMany));
  }

  lemma {:induction false} NetOns(log: seq<Call>, items: seq<nat>)
    ensures Net(log + OnCalls(items)) == Net(log) + |items|
  {
    if |items| > 0 {
      var n := |items| - 1;
      NetOns(log, items[..n]);
      assert (log + OnCalls(items))[..|log| + n] == log + OnCalls(items[..n]);
    } else {
      assert log + OnCalls(items) == log;
    }
  }

  lemma {:induction false} NetOffs(log: seq<Call>, items: seq<nat>)
    ensures Net(log + OffCalls(items)) == Net(log) - |items|
  {
    if |items| > 0 {
      var n := |items| - 1;
      NetOffs(log, items[..n]);
      assert (log + OffCalls(items))[..|log| + n] == log + OffCalls(items[..n]);
    } else {
      assert log + OffCalls(items) == log;
    }
  }

  class ObservableArray {
    var items: seq<nat>
    var eventName: Events.Name
    var callback: Events.Listener
    /** The on and off calls made on items so far, oldest first. */
    var calls: seq<Call>

    /** An empty array that will listen for eventName with callback. */
    constructor (eventName: Events.Name, callback: Events.Listener)
      ensures items == [] && calls == []
      ensures this.eventName == eventName && this.callback == callback
    {
      items := [];
      this.eventName := eventName;
      this.callback := callback;
      calls := [];
    }

    /** The log holds as many on calls beyond its off calls as the array has elements (a count, not a per-item match). */
    predicate Balanced()
      reads this
    {
      Net(calls) == |items|
    }

    /**
     * splice: on for each inserted item in order, then off for each element
     * from index to index + howMany, then the built-in splice. An on call
     * throws TypeError unless the event name is a string and the callback
     * a function; reading this[i] outside the array throws TypeError when
     * off is called on it. Either error leaves the contents as they were.
     */
    method Splice(index: int, howMany: int, inserted: seq<nat>) returns (r: Outcome)
      modifies this
      ensures eventName == old(eventName) && callback == old(callback)
      ensures r.Pass? <==> OnsAccepted(eventName, callback, inserted) && OffsInRange(|old(items)|, index, howMany)
      ensures r.Fail? ==> r.error == TypeError && items == old(items)
      ensures r.Pass? ==> items == JsSplice(old(items), index, howMany, inserted)
      ensures calls == old(calls) +
        if OnsAccepted(eventName, callback, inserted)
        then OnCalls(inserted) + OffCalls(OffReached(old(items), index, howMany))
        else []
      ensures r.Pass? && old(Balanced()) ==> Balanced()
    {
      ghost var log := calls;
      var onsDone := CallOns(inserted);
      if !onsDone {
        return Fail(TypeError);
      }
      var offsDone := CallOffs(index, howMany);
      if !offsDone {
        return Fail(TypeError);
      }
      SpliceBalanced(items, index, howMany, inserted, log);
      items := JsSplice(items, index, howMany, inserted);
      r := Pass;
    }

    /** The loop of splice that calls on for each inserted item; false when the first call throws. */
    method CallOns(inserted: seq<nat>) returns (done: bool)
      modifies this
      ensures items == old(items) && eventName == old(eventName) && callback == old(callback)
      ensures done == OnsAccepted(eventName, callback, inserted)
      ensures calls == old(calls) + if done then OnCalls(inserted) else []
    {
      var k := 0;
      while k < |inserted|
        invariant 0 <= k <= |inserted|
        invariant items == old(items) && eventName == old(eventName) && callback == old(callback)
        invariant k > 0 ==> OnsAccepted(eventName, callback, inserted)
        invariant calls == old(calls) + OnCalls(inserted[..k])
      {
        if eventName.NotNamed? || callback.NotFn? {
          assert k == 0;
          return false;
        }
        assert inserted[..k + 1][..k] == inserted[..k];
        calls := calls + [On(inserted[k])];
        k := k + 1;
      }
      assert inserted[..k] == inserted;
      done := true;
    }

    /** The loop of splice that calls off on this[index] .. this[index + howMany - 1]; false when one is missing. */
    method CallOffs(index: int, howMany: int) returns (done: bool)
      modifies this
      ensures items == old(items) && eventName == old(eventName) && callback == old(callback)
      ensures done == OffsInRange(|items|, index, howMany)
      ensures calls == old(calls) + OffCalls(OffReached(items, index, howMany))
    {
      var i := index;
      while i < index + howMany
        invariant items == old(items) && eventName == old(eventName) && callback == old(callback)
        invariant index <= i && (i > index ==> i <= index + howMany)
        invariant i > index ==> 0 <= index && i <= |items|
        invariant calls == old(calls) + if i > index then OffCalls(items[index..i]) else []
      {
        if i < 0 || i >= |items| {
          OffReachedStops(items, index, howMany, i);
          return false;
        }
        assert items[index..i + 1][..i - index] == items[index..i];
        calls := calls + [Off(items[i])];
        i := i + 1;
      }
      assert i > index ==> items[index..i] == OffReached(items, index, howMany);
      assert i == index ==> OffReached(items, index, howMany) == [];
      done := true;
    }

    /**
     * push as written: splice at length - 1, removing nothing. The items go
     * in before the last element, or at the front of an empty array.
     */
    method Push(inserted: seq<nat>) returns (r: Outcome)
      modifies this
      ensures r.Pass? <==> OnsAccepted(eventName, callback, inserted)
      ensures r.Fail? ==> r.error == TypeError && items == old(items)
      ensures r.Pass? ==> items == PushedBeforeLast(old(items), inserted)
      ensures calls == old(calls) + if r.Pass? then OnCalls(inserted) else []
    {
      r := Splice(|items| - 1, 0, inserted);
      PushSplice(old(items), inserted);
    }

    /** push as evidently intended: the items appended at the end. */
    method PushIntended(inserted: seq<nat>) returns (r: Outcome)
      modifies this
      ensures r.Pass? <==> OnsAccepted(eventName, callback, inserted)
      ensures r.Fail? ==> r.error == TypeError && items == old(items)
      ensures r.Pass? ==> items == old(items) + inserted
      ensures calls == old(calls) + if r.Pass? then OnCalls(inserted) else []
    {
      r := Splice(|items|, 0, inserted);
      assert old(items)[|old(items)|..] == [];
    }
  }

  /** The off loop stops at i because this[i] lies outside the array: it reached exactly index..i. */
  lemma OffReachedStops(s: seq<nat>, index: int, howMany: int, i: int)
    requires index <= i < index + howMany && (i > index ==> 0 <= index && i <= |s|)
    requires i < 0 || i >= |s|
    ensures !OffsInRange(|s|, index, howMany)
    ensures OffReached(s, index, howMany) == if i > index then s[index..i] else []
  {
  }

  /** What push leaves: the inserted items placed just before the old last element. */
  function PushedBeforeLast(s: seq<nat>, inserted: seq<nat>): (r: seq<nat>)
    ensures |r| == |s| + |inserted|
    ensures |s| > 0 ==> r[|r| - 1] == s[|s| - 1]
  {
    if |s| == 0 then inserted else s[..|s| - 1] + inserted + [s[|s| - 1]]
  }

  /** push's splice at length - 1 with nothing removed is PushedBeforeLast, and never calls off. */
  lemma PushSplice(s: seq<nat>, inserted: seq<nat>)
    ensures JsSplice(s, |s| - 1, 0, inserted) == PushedBeforeLast(s, inserted)
    ensures OffsInRange(|s|, |s| - 1, 0) && OffReached(s, |s| - 1, 0) == []
  {
    if |s| > 0 {
      assert s[|s| - 1..] == [s[|s| - 1]];
    }
  }

  /** Pushing 8 onto [7] gives [8, 7], not the [7, 8] that appending gives. */
  lemma PushCounterexample()
    ensures PushedBeforeLast([7], [8]) == [8, 7]
    ensures [7] + [8] == [7, 8]
  {
    assert [7][..0] == [];
  }
}
