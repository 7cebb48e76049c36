/** `useLoadingScreen`: `start` and `stop` read the store's list of loading keys and dispatch
    `updateState` with the new list. The store is a class holding the slice's state. */
module UseLoadingScreen {
  import opened Wrappers
  import opened LoadingScreenReducer

  /** The keys of `s` are pairwise different. */
  ghost predicate NoDuplicates(s: seq<string>) {
    forall i, j :: 0 <= i < j < |s| ==> s[i] != s[j]
  }

  /** The list `start(key)` leaves: `key` appended at the end when it is absent. */
  function Started(list: seq<string>, key: string): (r: seq<string>)
    ensures key in r
    ensures forall x :: x in r <==> x in list || x == key
    ensures key in list ==> r == list
    ensures key !in list ==> r == list + [key]
  {
    if key in list then list else list + [key]
  }

  /** `list.filter(loadingKey => loadingKey !== key)`. */
  function Stopped(list: seq<string>, key: string): (r: seq<string>)
    ensures forall x :: x in r <==> x in list && x != key
    ensures |r| <= |list|
  {
    if list == [] then []
    else (if list[0] != key then [list[0]] else []) + Stopped(list[1..], key)
  }

  /** `stop` is a filter: it works piece by piece, so the remaining keys keep their order. */
  lemma {:induction false} StoppedAppend(a: seq<string>, b: seq<string>, key: string)
    ensures Stopped(a + b, key) == Stopped(a, key) + Stopped(b, key)
    decreases |a|
  {
    if a == [] {
      assert a + b == b;
    } else {
      StoppedAppend(a[1..], b, key);
      assert (a + b)[0] == a[0] && (a + b)[1..] == a[1..] + b;
      var head := if a[0] != key then [a[0]] else [];
      calc {
        Stopped(a + b, key);
        head + Stopped(a[1..] + b, key);
        head + (Stopped(a[1..], key) + Stopped(b, key));
        (head + Stopped(a[1..], key)) + Stopped(b, key);
        Stopped(a, key) + Stopped(b, key);
      }
    }
  }

  /** `stop` removes every occurrence of its key and keeps every other occurrence. */
  lemma {:induction false} StoppedCounts(list: seq<string>, key: string)
    ensures multiset(Stopped(list, key)) == multiset(list)[key := 0]
  {
    if list != [] {
      StoppedCounts(list[1..], key);
      assert list == [list[0]] + list[1..];
    }
  }

  /** Stopping a key that is not there leaves the list as it is. */
  lemma {:induction false} StopAbsentUnchanged(list: seq<string>, key: string)
    requires key !in list
    ensures Stopped(list, key) == list
  {
    if list != [] {
      StopAbsentUnchanged(list[1..], key);
      assert list == [list[0]] + list[1..];
    }
  }

  /** `start` never introduces a duplicate. */
  lemma StartKeepsNoDuplicates(list: seq<string>, key: string)
    requires NoDuplicates(list)
    ensures NoDuplicates(Started(list, key))
  {
  }

  /** Starting the same key twice is starting it once. */
  lemma StartIdempotent(list: seq<string>, key: string)
    ensures Started(Started(list, key), key) == Started(list, key)
  {
  }

  /** Starting an absent key and stopping it again gives back the list. */
  lemma {:induction false} StartThenStopRestores(list: seq<string>, key: string)
    requires key !in list
    ensures Stopped(Started(list, key), key) == list
  {
    StoppedAppend(list, [key], key);
    StopAbsentUnchanged(list, key);
    assert Stopped([key], key) == [];
  }

  /** The store with the loading-screen slice. */
  class LoadingScreenStore {
    var state: LoadingState

    constructor()
      ensures state == InitialState
    {
      state := InitialState;
    }

    /** `start({ key })`: dispatch the list with `key` appended, unless it is already there.
        The dispatched actions are returned in order. */
    method Start(key: string) returns (dispatched: seq<Payload>)
      modifies this
      ensures state.loadingList == Started(old(state.loadingList), key)
      ensures dispatched == if key in old(state.loadingList) then [] else [Payload(Some(state.loadingList))]
    {
      var loadingList := state.loadingList;
      dispatched := [];
      if key !in loadingList {
        var action := Payload(Some(loadingList + [key]));
        state := UpdateState(state, action);
        dispatched := [action];
      }
    }

    /** `stop({ key })`: dispatch the list without `key`; this happens even when `key` is absent. */
    method Stop(key: string) returns (dispatched: seq<Payload>)
      modifies this
      ensures state.loadingList == Stopped(old(state.loadingList), key)
      ensures dispatched == [Payload(Some(state.loadingList))]
    {
      var loadingList := state.loadingList;
      var updatedList := Stopped(loadingList, key);
      var action := Payload(Some(updatedList));
      state := UpdateState(state, action);
      dispatched := [action];
    }

    /** `resetState`. */
    method Reset()
      modifies this
      ensures state == InitialState
    {
      state := ResetState(state);
    }
  }
}
