/** Node events and their publisher, `codememo/events.py`. */
module Events {
  import opened Wrappers
  import Text

  /** An event name with its keyword arguments. */
  datatype NodeEvent<V> = NodeEvent(name: string, kwargs: map<string, V>) {
    /** `event.get(name, default)`. */
    function Get(key: string, default: V): (r: V)
      ensures key in kwargs ==> r == kwargs[key]
      ensures key !in kwargs ==> r == default
    {
      if key in kwargs then kwargs[key] else default
    }
  }

  /** What `dispatch` is called with: a `NodeEvent`, or any other object. */
  datatype Argument<V> = AnEvent(event: NodeEvent<V>) | NotAnEvent

  datatype EventError =
    | ValueError  // the subscriber is not registered
    | TypeError   // `dispatch` was not given a `NodeEvent`

  /** The name of the handler `dispatch` calls on each subscriber. */
  function CallbackName(eventName: string): string {
    "handle_event__" + eventName
  }

  /** The list `unregister` leaves as written: when `s` is registered, the
      last subscriber is popped, whichever it is. */
  function UnregisteredAsWritten<S(==)>(subs: seq<S>, s: S): (r: Option<seq<S>>)
    ensures r.Some? <==> s in subs
    ensures r.Some? ==> |r.value| == |subs| - 1 && r.value == subs[..|subs| - 1]
  {
    if s in subs then Some(subs[..|subs| - 1]) else None
  }

  /** The intended `unregister`: the matched subscriber is removed. */
  function Unregistered<S(==)>(subs: seq<S>, s: S): (r: Option<seq<S>>)
    ensures r.Some? <==> s in subs
    ensures r.Some? ==> |r.value| == |subs| - 1
    ensures r.Some? ==> multiset(r.value) == multiset(subs) - multiset{s}
  {
    if s in subs then
      var i := Text.IndexOf(subs, s);
      assert subs == subs[..i] + [s] + subs[i + 1..];
      Some(subs[..i] + subs[i + 1..])
    else None
  }

  /** As written, unregistering the first of two subscribers removes the
      second one, and the first stays registered. */
  lemma UnregisterAsWrittenRemovesWrongSubscriber<S>(a: S, b: S)
    requires a != b
    ensures UnregisteredAsWritten([a, b], a) == Some([a])
    ensures a in UnregisteredAsWritten([a, b], a).value
    ensures b !in UnregisteredAsWritten([a, b], a).value
  {
    assert [a, b][..1] == [a];
  }

  /** The intended removal leaves a subscriber that was registered once no
      longer registered, and keeps the others in their order. */
  lemma UnregisterRemovesMatched<S>(subs: seq<S>, s: S)
    requires s in subs && Text.Distinct(subs)
    ensures Unregistered(subs, s).Some?
    ensures s !in Unregistered(subs, s).value
    ensures var i := Text.IndexOf(subs, s);
      Unregistered(subs, s).value == subs[..i] + subs[i + 1..]
  {
    var i := Text.IndexOf(subs, s);
    var r := subs[..i] + subs[i + 1..];
    forall k | 0 <= k < |r|
      ensures r[k] != s
    {
      if k < i {
        assert r[k] == subs[k];
      } else {
        assert r[k] == subs[k + 1];
      }
    }
  }

  /** The two agree when the matched subscriber is the last one, and, when
      no subscriber is registered twice, only then. */
  lemma UnregisterAgreesWhenLast<S>(subs: seq<S>, s: S)
    requires s in subs
    ensures Text.IndexOf(subs, s) == |subs| - 1 ==> UnregisteredAsWritten(subs, s) == Unregistered(subs, s)
    ensures Text.Distinct(subs) && Text.IndexOf(subs, s) != |subs| - 1
      ==> UnregisteredAsWritten(subs, s) != Unregistered(subs, s)
  {
    var i := Text.IndexOf(subs, s);
    if i == |subs| - 1 {
      assert subs[i + 1..] == [];
      assert subs[..i] + subs[i + 1..] == subs[..|subs| - 1];
    } else if Text.Distinct(subs) {
      UnregisterRemovesMatched(subs, s);
      assert subs[..|subs| - 1][i] == s;
      assert s in UnregisteredAsWritten(subs, s).value;
    }
  }

  /** Unregistering the subscriber that was registered last gives back the
      list from before its registration, both as written and as intended,
      provided it was not registered before. */
  lemma RegisterThenUnregister<S>(subs: seq<S>, s: S)
    ensures UnregisteredAsWritten(subs + [s], s) == Some(subs)
    ensures s !in subs ==> Unregistered(subs + [s], s) == Some(subs)
  {
    var longer := subs + [s];
    assert longer[|subs|] == s;
    assert longer[..|longer| - 1] == subs;
    if s !in subs {
      assert Text.IndexOf(longer, s) == |subs|;
      assert longer[..|subs|] + longer[|subs| + 1..] == subs;
    }
  }

  class NodeEventPublisher<S(==)> {
    var subscribers: seq<S>

    constructor ()
      ensures subscribers == []
    {
      subscribers := [];
    }

    /** `register(s)`: appends `s` at the end. */
    method Register(s: S)
      modifies this
      ensures subscribers == old(subscribers) + [s]
    {
      subscribers := subscribers + [s];
    }

    /** `unregister(s)` as written: `ValueError` when `s` is not registered,
        otherwise the last subscriber is popped. */
    method UnregisterAsWritten(s: S) returns (r: Outcome<EventError>)
      modifies this
      ensures r.Pass? <==> s in old(subscribers)
      ensures r.Fail? ==> r.error == ValueError && subscribers == old(subscribers)
      ensures r.Pass? ==> Some(subscribers) == UnregisteredAsWritten(old(subscribers), s)
    {
      if s !in subscribers {
        return Fail(ValueError);
      }
      subscribers := subscribers[..|subscribers| - 1];
      r := Pass;
    }

    /** `unregister(s)` as intended: the subscriber found by `index` is removed. */
    method Unregister(s: S) returns (r: Outcome<EventError>)
      modifies this
      ensures r.Pass? <==> s in old(subscribers)
      ensures r.Fail? ==> r.error == ValueError && subscribers == old(subscribers)
      ensures r.Pass? ==> Some(subscribers) == Unregistered(old(subscribers), s)
    {
      if s !in subscribers {
        return Fail(ValueError);
      }
      var idx := Text.IndexOf(subscribers, s);
      subscribers := subscribers[..idx] + subscribers[idx + 1..];
      r := Pass;
    }

    /** `dispatch(event)`: the handler calls it makes, one per subscriber in
        registration order; anything but a `NodeEvent` is a `TypeError`. */
    method Dispatch<V>(arg: Argument<V>) returns (r: Result<seq<(S, string)>, EventError>)
      ensures arg.NotAnEvent? <==> r == Err(TypeError)
      ensures r.Ok? ==> |r.value| == |subscribers|
      ensures r.Ok? ==> forall i :: 0 <= i < |subscribers| ==>
        r.value[i] == (subscribers[i], CallbackName(arg.event.name))
    {
      if arg.NotAnEvent? {
        return Err(TypeError);
      }
      var calls: seq<(S, string)> := [];
      var i := 0;
      while i < |subscribers|
        invariant 0 <= i <= |subscribers|
        invariant |calls| == i
        invariant forall j :: 0 <= j < i ==> calls[j] == (subscribers[j], CallbackName(arg.event.name))
      {
        calls := calls + [(subscribers[i], CallbackName(arg.event.name))];
        i := i + 1;
      }
      r := Ok(calls);
    }
  }
}
