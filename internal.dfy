/** The application-wide key/value store with an error stack,
    `GlobalState` of `codememo/interanl.py`. */
module Internal {
  import opened Wrappers

  datatype StateError =
    | KeyError    // the key is not in the store
    | IndexError  // pop from an empty error stack

  class GlobalState<K(==), V, E> {
    var content: map<K, V>
    var errorStack: seq<E>

    constructor ()
      ensures content == map[] && errorStack == []
    {
      content := map[];
      errorStack := [];
    }

    /** `key in state`. */
    predicate Contains(key: K)
      reads this
    {
      key in content
    }

    /** `error_occured`: an error is waiting to be handled. */
    predicate ErrorOccured()
      reads this
    {
      |errorStack| != 0
    }

    /** `get(key)` and `get(key, default)`: the stored value, else the default
        (missing, Python's `None`). */
    function Get(key: K, default: Option<V>): (r: Option<V>)
      reads this
      ensures Contains(key) ==> r == Some(content[key])
      ensures !Contains(key) ==> r == default
    {
      if key in content then Some(content[key]) else default
    }

    /** `set(key, value)`: stores or overwrites one key. */
    method Set(key: K, value: V)
      modifies this`content
      ensures content == old(content)[key := value]
    {
      content := content[key := value];
    }

    /** `pop(key)` and `pop(key, default)`: removes the key and returns its
        value; a missing key returns the default, or fails without one. */
    method Pop(key: K, default: Option<V>) returns (r: Result<V, StateError>)
      modifies this`content
      ensures old(key in content) ==> r == Ok(old(content)[key]) && content == old(content) - {key}
      ensures old(key !in content) ==> content == old(content)
      ensures old(key !in content) && default.Some? ==> r == Ok(default.value)
      ensures old(key !in content) && default.None? ==> r == Err(KeyError)
    {
      if key in content {
        r := Ok(content[key]);
        content := content - {key};
      } else if default.Some? {
        r := Ok(default.value);
      } else {
        r := Err(KeyError);
      }
    }

    /** `delete(key)`: removes the key; a missing key fails and changes nothing. */
    method Delete(key: K) returns (r: Outcome<StateError>)
      modifies this`content
      ensures r.Pass? <==> old(key in content)
      ensures r.Fail? ==> r.error == KeyError && content == old(content)
      ensures r.Pass? ==> content == old(content) - {key}
    {
      if key !in content {
        return Fail(KeyError);
      }
      content := content - {key};
      r := Pass;
    }

    /** `push_error(e)`: puts `e` on top of the stack. */
    method PushError(e: E)
      modifies this`errorStack
      ensures errorStack == old(errorStack) + [e]
      ensures ErrorOccured()
    {
      errorStack := errorStack + [e];
    }

    /** `pop_error()`: takes the most recent error off the stack; fails on an empty stack. */
    method PopError() returns (r: Result<E, StateError>)
      modifies this`errorStack
      ensures old(errorStack) == [] ==> r == Err(IndexError) && errorStack == []
      ensures old(errorStack) != [] ==>
        r == Ok(old(errorStack)[|old(errorStack)| - 1]) && errorStack == old(errorStack)[..|old(errorStack)| - 1]
    {
      if errorStack == [] {
        return Err(IndexError);
      }
      r := Ok(errorStack[|errorStack| - 1]);
      errorStack := errorStack[..|errorStack| - 1];
    }
  }

  /** A value that was set is read back, and setting touches no other key. */
  method SetThenGet<K, V, E>(s: GlobalState<K, V, E>, key: K, value: V, other: K)
    modifies s
    ensures s.Get(key, None) == Some(value)
    ensures other != key ==> s.Get(other, None) == old(s.Get(other, None))
    ensures s.errorStack == old(s.errorStack)
  {
    s.Set(key, value);
  }

  /** Errors come back last in, first out, and popping restores the stack. */
  method PushThenPopError<K, V, E>(s: GlobalState<K, V, E>, e: E) returns (r: Result<E, StateError>)
    modifies s
    ensures r == Ok(e)
    ensures s.errorStack == old(s.errorStack) && s.content == old(s.content)
    ensures s.ErrorOccured() == old(s.ErrorOccured())
  {
    s.PushError(e);
    r := s.PopError();
    assert (old(s.errorStack) + [e])[..|old(s.errorStack)|] == old(s.errorStack);
  }

  /** After a successful delete, or a pop, the key is no longer present. */
  method DeleteThenContains<K, V, E>(s: GlobalState<K, V, E>, key: K) returns (r: Outcome<StateError>)
    modifies s
    ensures !s.Contains(key)
    ensures r.Pass? <==> old(s.Contains(key))
  {
    r := s.Delete(key);
  }
}
