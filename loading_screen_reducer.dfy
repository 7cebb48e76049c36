/** The `loading-screen` slice of the store: its state, the partial-update action and the reset. */
module LoadingScreenReducer {
  import opened Wrappers

  /** `Props`: the list of keys that currently hold the loading screen. */
  datatype LoadingState = LoadingState(loadingList: seq<string>)

  /** `Partial<Props>`: each field of the state may be present or absent. */
  datatype Payload = Payload(loadingList: Option<seq<string>>)

  /** The payload with no field. */
  const EmptyPayload: Payload := Payload(None)

  /** `initialState`. */
  const InitialState: LoadingState := LoadingState([])

  /** `updateState`: `{ ...state, ...payload }`, the fields present in the payload win. */
  function UpdateState(state: LoadingState, payload: Payload): (r: LoadingState)
    ensures payload.loadingList.Some? ==> r.loadingList == payload.loadingList.value
    ensures payload.loadingList.None? ==> r == state
  {
    match payload.loadingList
    case Some(list) => state.(loadingList := list)
    case None => state
  }

  /** `resetState`: the initial state, whatever came before. */
  function ResetState(state: LoadingState): (r: LoadingState)
    ensures r == InitialState && r.loadingList == []
  {
    InitialState
  }

  /** An update with an empty payload changes nothing. */
  lemma EmptyUpdateIsIdentity(state: LoadingState)
    ensures UpdateState(state, EmptyPayload) == state
  {
  }

  /** Applying the same payload twice is applying it once. */
  lemma UpdateStateIdempotent(state: LoadingState, payload: Payload)
    ensures UpdateState(UpdateState(state, payload), payload) == UpdateState(state, payload)
  {
  }

  /** A later update of the list overrides an earlier one. */
  lemma LaterUpdateWins(state: LoadingState, first: seq<string>, second: seq<string>)
    ensures UpdateState(UpdateState(state, Payload(Some(first))), Payload(Some(second)))
         == UpdateState(state, Payload(Some(second)))
  {
  }
}
