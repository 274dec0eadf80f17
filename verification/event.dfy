/**
 * EventEmitter (src/event.js): an ordered list of (event name, listener)
 * registrations. Listeners are functions in JavaScript; here each is an
 * opaque id, and emitting returns the ids called, in calling order.
 */
module Events {
  import opened Wrappers

  /** The event argument as passed: a string, or a value of another type. */
  datatype Name = Named(s: string) | NotNamed

  /** The listener argument as passed: a function (by id), or anything else. */
  datatype Listener = Fn(id: nat) | NotFn

  type Registration = (string, nat)

  /** Whether a stored registration is strictly equal to the (event, listener) pair given to off. */
  predicate Matches(entry: Registration, event: Name, listener: Listener)
  {
    event.Named? && listener.Fn? && entry.0 == event.s && entry.1 == listener.id
  }

  /** Indices of the registrations matching (event, listener), ascending. */
  function MatchIndices(l: seq<Registration>, event: Name, listener: Listener): (r: seq<nat>)
    ensures forall k: int :: k in r <==> 0 <= k < |l| && Matches(l[k], event, listener)
    ensures forall a, b :: 0 <= a < b < |r| ==> r[a] < r[b]
  {
    if |l| == 0 then []
    else
      var n := |l| - 1;
      var m := MatchIndices(l[..n], event, listener);
      assert forall k :: 0 <= k < |m| ==> m[k] in m && m[k] < n;
      if Matches(l[n], event, listener) then m + [n] else m
  }

  /** Array.prototype.splice(i, 1): removes entry i, or nothing when i is past the end. */
  function RemoveAt<T>(l: seq<T>, i: nat): (r: seq<T>)
    ensures i < |l| ==> |r| == |l| - 1
    ensures i >= |l| ==> r == l
  {
    if i < |l| then l[..i] + l[i + 1..] else l
  }

  /** Splicing out the indices one after another, first to last, each on the list the previous one left. */
  function SpliceEach<T>(l: seq<T>, idx: seq<nat>): seq<T>
  {
    if |idx| == 0 then l else SpliceEach(RemoveAt(l, idx[0]), idx[1..])
  }

  /** Splicing out the indices one after another, last to first. */
  function SpliceFromEnd<T>(l: seq<T>, idx: seq<nat>): seq<T>
  {
    if |idx| == 0 then l else SpliceFromEnd(RemoveAt(l, idx[|idx| - 1]), idx[..|idx| - 1])
  }

  /** The registrations that do not match (event, listener), in their order. */
  function Kept(l: seq<Registration>, event: Name, listener: Listener): seq<Registration>
  {
    if |l| == 0 then []
    else
      Kept(l[..|l| - 1], event, listener) +
      (if Matches(l[|l| - 1], event, listener) then [] else [l[|l| - 1]])
  }

  /** The ids of the listeners registered under the event, in registration order. */
  function Triggered(l: seq<Registration>, event: Name): (r: seq<nat>)
    ensures |r| <= |l|
  {
    if |l| == 0 then []
    else
      Triggered(l[..|l| - 1], event) +
      (if event.Named? && l[|l| - 1].0 == event.s then [l[|l| - 1].1] else [])
  }

  class EventEmitter {
    var listeners: seq<Registration>

    constructor ()
      ensures listeners == []
    {
      listeners := [];
    }

    /**
     * on: TypeError unless the event is a string and the listener a
     * function; otherwise one registration is appended.
     */
    method On(event: Name, listener: Listener) returns (r: Outcome)
      modifies this
      ensures r.Fail? <==> event.NotNamed? || listener.NotFn?
      ensures r.Fail? ==> r.error == TypeError && listeners == old(listeners)
      ensures r.Pass? ==> listeners == old(listeners) + [(event.s, listener.id)]
    {
      if event.NotNamed? {
        return Fail(TypeError);
      } else if listener.NotFn? {
        return Fail(TypeError);
      }
      listeners := listeners + [(event.s, listener.id)];
      r := Pass;
    }

    /**
     * off as written: collect the indices of the matching registrations,
     * then splice them out in ascending order. Every splice shifts the
     * later entries down, so the later indices no longer point at matches.
     */
    method Off(event: Name, listener: Listener)
      modifies this
      ensures listeners == SpliceEach(old(listeners), MatchIndices(old(listeners), event, listener))
    {
      var toRemove := CollectMatches(event, listener);
      ghost var before := listeners;
      var k := 0;
      while k < |toRemove|
        invariant 0 <= k <= |toRemove|
        invariant SpliceEach(listeners, toRemove[k..]) == SpliceEach(before, toRemove)
      {
        assert toRemove[k..][1..] == toRemove[k + 1..];
        listeners := RemoveAt(listeners, toRemove[k]);
        k := k + 1;
      }
    }

    /**
     * off as evidently intended: the same indices spliced out from the
     * highest down, so that no splice moves an entry still to be removed.
     */
    method OffIntended(event: Name, listener: Listener)
      modifies this
      ensures listeners == Kept(old(listeners), event, listener)
    {
      var toRemove := CollectMatches(event, listener);
      ghost var before := listeners;
      var k := |toRemove|;
      assert toRemove[..k] == toRemove;
      while k > 0
        invariant 0 <= k <= |toRemove|
        invariant SpliceFromEnd(listeners, toRemove[..k]) == SpliceFromEnd(before, toRemove)
      {
        PeelLast(listeners, toRemove, k);
        listeners := RemoveAt(listeners, toRemove[k - 1]);
        k := k - 1;
      }
      SpliceFromEndRemovesMatches(before, event, listener);
    }

    /** The forEach of off that gathers the indices of the matching registrations. */
    method CollectMatches(event: Name, listener: Listener) returns (toRemove: seq<nat>)
      ensures toRemove == MatchIndices(listeners, event, listener)
    {
      toRemove := [];
      var i := 0;
      while i < |listeners|
        invariant 0 <= i <= |listeners|
        invariant toRemove == MatchIndices(listeners[..i], event, listener)
      {
        assert listeners[..i + 1][..i] == listeners[..i];
        if Matches(listeners[i], event, listener) {
          toRemove := toRemove + [i];
        }
        i := i + 1;
      }
      assert listeners[..i] == listeners;
    }

    /**
     * emit: call, in registration order, every listener registered under
     * the event, each with the argument; the ids called are returned.
     */
    method Emit(event: Name) returns (calls: seq<nat>)
      ensures calls == Triggered(listeners, event)
    {
      calls := [];
      var i := 0;
      while i < |listeners|
        invariant 0 <= i <= |listeners|
        invariant calls == Triggered(listeners[..i], event)
      {
        assert listeners[..i + 1][..i] == listeners[..i];
        if event.Named? && listeners[i].0 == event.s {
          calls := calls + [listeners[i].1];
        }
        i := i + 1;
      }
      assert listeners[..i] == listeners;
    }
  }

  /** Splicing out the first k indices from the end starts with index k - 1. */
  lemma PeelLast(l: seq<Registration>, idx: seq<nat>, k: nat)
    requires 0 < k <= |idx|
    ensures SpliceFromEnd(l, idx[..k]) == SpliceFromEnd(RemoveAt(l, idx[k - 1]), idx[..k - 1])
  {
    var front := idx[..k];
    assert front[..|front| - 1] == idx[..k - 1] && front[|front| - 1] == idx[k - 1];
  }

  /** A listener registered with on is the last one emit calls for its event. */
  lemma OnThenEmit(l: seq<Registration>, s: string, f: nat)
    ensures Triggered(l + [(s, f)], Named(s)) == Triggered(l, Named(s)) + [f]
  {
    assert (l + [(s, f)])[..|l|] == l;
  }

  /** A registration under another event changes nothing emit calls. */
  lemma OnOtherThenEmit(l: seq<Registration>, s: string, f: nat, event: Name)
    requires !(event.Named? && event.s == s)
    ensures Triggered(l + [(s, f)], event) == Triggered(l, event)
  {
    assert (l + [(s, f)])[..|l|] == l;
  }

  /** Each id emit calls belongs to a registration under the event. */
  lemma {:induction false} TriggeredRegistered(l: seq<Registration>, event: Name, k: nat)
    requires k < |Triggered(l, event)|
    ensures event.Named? && (event.s, Triggered(l, event)[k]) in l
  {
    var n := |l| - 1;
    if k < |Triggered(l[..n], event)| {
      TriggeredRegistered(l[..n], event, k);
      assert l[..n] <= l;
    }
  }

  /** Splicing out, from the end, the indices of the matches removes exactly the matches. */
  lemma {:induction false} SpliceFromEndRemovesMatches(l: seq<Registration>, event: Name, listener: Listener)
    ensures SpliceFromEnd(l, MatchIndices(l, event, listener)) == Kept(l, event, listener)
  {
    if |l| > 0 {
      var front, x := l[..|l| - 1], l[|l| - 1];
      SpliceFromEndRemovesMatches(front, event, listener);
      assert l == front + [x];
      if Matches(x, event, listener) {
        LastMatchRemoved(front, x, event, listener);
      } else {
        LastKept(front, x, event, listener);
      }
    }
  }

  /** A matching last entry is the first one spliced out, leaving the front to the rest. */
  lemma LastMatchRemoved(front: seq<Registration>, x: Registration, event: Name, listener: Listener)
    requires Matches(x, event, listener)
    requires SpliceFromEnd(front, MatchIndices(front, event, listener)) == Kept(front, event, listener)
    ensures SpliceFromEnd(front + [x], MatchIndices(front + [x], event, listener)) == Kept(front + [x], event, listener)
  {
    var l := front + [x];
    assert l[..|l| - 1] == front && l[|l| - 1] == x;
    var m := MatchIndices(front, event, listener);
    var idx := m + [|front|];
    assert MatchIndices(l, event, listener) == idx;
    assert idx[..|idx| - 1] == m && idx[|idx| - 1] == |front|;
    assert RemoveAt(l, |front|) == front;
  }

  /** A non-matching last entry stays last while the front's matches are spliced out. */
  lemma LastKept(front: seq<Registration>, x: Registration, event: Name, listener: Listener)
    requires !Matches(x, event, listener)
    requires SpliceFromEnd(front, MatchIndices(front, event, listener)) == Kept(front, event, listener)
    ensures SpliceFromEnd(front + [x], MatchIndices(front + [x], event, listener)) == Kept(front + [x], event, listener)
  {
    var l := front + [x];
    assert l[..|l| - 1] == front && l[|l| - 1] == x;
    var m := MatchIndices(front, event, listener);
    assert MatchIndices(l, event, listener) == m;
    assert Kept(l, event, listener) == Kept(front, event, listener) + [x];
    MatchIndicesBelow(front, event, listener);
    SpliceFromEndAppend(front, x, m);
  }

  /** Every match index is an index of the list. */
  lemma MatchIndicesBelow(l: seq<Registration>, event: Name, listener: Listener)
    ensures forall k :: 0 <= k < |MatchIndices(l, event, listener)| ==> MatchIndices(l, event, listener)[k] < |l|
  {
    var m := MatchIndices(l, event, listener);
    forall k | 0 <= k < |m|
      ensures m[k] < |l|
    {
      assert m[k] in m;
    }
  }

  /** An entry after every index being spliced out stays at the end. */
  lemma {:induction false} SpliceFromEndAppend<T>(a: seq<T>, x: T, idx: seq<nat>)
    requires forall k :: 0 <= k < |idx| ==> idx[k] < |a|
    requires forall i, j :: 0 <= i < j < |idx| ==> idx[i] < idx[j]
    ensures SpliceFromEnd(a + [x], idx) == SpliceFromEnd(a, idx) + [x]
  {
    if |idx| > 0 {
      var j := idx[|idx| - 1];
      var rest := idx[..|idx| - 1];
      assert RemoveAt(a + [x], j) == RemoveAt(a, j) + [x];
      forall k | 0 <= k < |rest|
        ensures rest[k] < |RemoveAt(a, j)|
      {
        assert rest[k] < j;
      }
      SpliceFromEndAppend(RemoveAt(a, j), x, rest);
    }
  }

  /** With no match, or a single one, off as written removes exactly the matches. */
  lemma AtMostOneMatchRemoved(l: seq<Registration>, event: Name, listener: Listener)
    requires |MatchIndices(l, event, listener)| <= 1
    ensures SpliceEach(l, MatchIndices(l, event, listener)) == Kept(l, event, listener)
  {
    var m := MatchIndices(l, event, listener);
    if |m| == 0 {
      assert SpliceFromEnd(l, m) == l;
    } else {
      assert |m[1..]| == 0 && |m[..0]| == 0;
      assert SpliceEach(l, m) == RemoveAt(l, m[0]) == SpliceFromEnd(l, m);
    }
    SpliceFromEndRemovesMatches(l, event, listener);
  }

  /** off as written on [A, A, B] with A matching leaves [A]: one match kept and B lost. */
  lemma OffShiftCounterexample()
    ensures var a: Registration, b: Registration := ("a", 1), ("b", 2);
      SpliceEach([a, a, b], MatchIndices([a, a, b], Named("a"), Fn(1))) == [a] &&
      Kept([a, a, b], Named("a"), Fn(1)) == [b]
  {
    ExampleMatches();
    ExampleSplices();
    ExampleKept();
  }

  /** The matches of ("a", 1) in [A, A, B] are at 0 and 1. */
  lemma ExampleMatches()
    ensures var a: Registration, b: Registration := ("a", 1), ("b", 2);
      MatchIndices([a, a, b], Named("a"), Fn(1)) == [0, 1]
  {
    var a, b := ("a", 1), ("b", 2);
    var l := [a, a, b];
    var single: seq<Registration> := [a];
    var pair: seq<Registration> := [a, a];
    var none: seq<Registration> := [];
    assert single[..0] == none && pair[..1] == single && l[..2] == pair;
    assert MatchIndices(none, Named("a"), Fn(1)) == [];
    assert MatchIndices(single, Named("a"), Fn(1)) == [0];
    assert MatchIndices(pair, Named("a"), Fn(1)) == [0, 1];
    assert MatchIndices(l, Named("a"), Fn(1)) == [0, 1];
  }

  /** Splicing out 0 and then 1 from [A, A, B] leaves [A]. */
  lemma ExampleSplices()
    ensures var a: Registration, b: Registration := ("a", 1), ("b", 2);
      SpliceEach([a, a, b], [0, 1]) == [a]
  {
    var a, b := ("a", 1), ("b", 2);
    var l: seq<Registration> := [a, a, b];
    var ab: seq<Registration> := [a, b];
    var single: seq<Registration> := [a];
    var idx: seq<nat> := [0, 1];
    assert RemoveAt(l, 0) == ab;
    assert RemoveAt(ab, 1) == single;
    assert idx[1..] == [1] && idx[1..][1..] == [];
    assert SpliceEach(single, idx[1..][1..]) == single;
    assert SpliceEach(ab, idx[1..]) == single;
    assert SpliceEach(l, idx) == single;
  }

  /** Removing every ("a", 1) from [A, A, B] leaves [B]. */
  lemma ExampleKept()
    ensures var a: Registration, b: Registration := ("a", 1), ("b", 2);
      Kept([a, a, b], Named("a"), Fn(1)) == [b]
  {
    var a, b := ("a", 1), ("b", 2);
    var l: seq<Registration> := [a, a, b];
    var single: seq<Registration> := [a];
    var pair: seq<Registration> := [a, a];
    var none: seq<Registration> := [];
    assert single[..0] == none && pair[..1] == single && l[..2] == pair;
    assert Kept(none, Named("a"), Fn(1)) == [];
    assert Kept(single, Named("a"), Fn(1)) == [];
    assert Kept(pair, Named("a"), Fn(1)) == [];
  }
}
