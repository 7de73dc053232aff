/**
  The app flow gate (`flowSlice` and `checkBoardGames`): a two-state
  machine that lets the first render start the fetch of the board games
  and makes every later call a no-op, however often the app re-renders.
*/
module Flow {
  import BoardGamesSlice

  /** `AppFlowStates`, with the two members the slice uses. */
  datatype AppFlowState = GetBoardGames | Ready

  /** The flow slice state. */
  class FlowSlice {
    var flowState: AppFlowState

    /** The initial state: the board games are still to be fetched. */
    constructor ()
      ensures flowState == GetBoardGames
    {
      flowState := GetBoardGames;
    }

    /** `updateFlowState`. */
    method UpdateFlowState(s: AppFlowState)
      modifies this
      ensures flowState == s
    {
      flowState := s;
    }
  }

  /** One `checkBoardGames` from flow state `s`: whether it dispatches the fetch, and the flow state it leaves. */
  function CheckStep(s: AppFlowState): (bool, AppFlowState)
  {
    if s == GetBoardGames then (true, Ready) else (false, s)
  }

  /** `checkBoardGames`: from `GetBoardGames` it dispatches the fetch, which marks the list loading, and moves to `Ready`; otherwise it does nothing. */
  method CheckBoardGames(flow: FlowSlice, games: BoardGamesSlice.BoardGames) returns (fetched: bool)
    requires games.Valid()
    modifies flow, games
    ensures games.Valid()
    ensures (fetched, flow.flowState) == CheckStep(old(flow.flowState))
    ensures fetched ==> games.status == BoardGamesSlice.Loading
    ensures fetched ==>
      && games.sortField == old(games.sortField) && games.sortDirection == old(games.sortDirection)
      && games.searchQuery == old(games.searchQuery)
      && games.boardGames == old(games.boardGames) && games.filteredBoardGames == old(games.filteredBoardGames)
      && games.currentBoardGame == old(games.currentBoardGame) && games.modalType == old(games.modalType)
    ensures !fetched ==> unchanged(games)
  {
    fetched := false;
    if flow.flowState == GetBoardGames {
      games.Pending();
      flow.UpdateFlowState(Ready);
      fetched := true;
    }
  }

  /** The number of fetches `n` calls of `checkBoardGames` dispatch, starting from flow state `s`. */
  function FetchCount(s: AppFlowState, n: nat): nat
    decreases n
  {
    if n == 0 then 0
    else (if CheckStep(s).0 then 1 else 0) + FetchCount(CheckStep(s).1, n - 1)
  }

  /** Repeated calls fetch at most once: exactly once when started in `GetBoardGames`, never from `Ready`. */
  lemma {:induction false} AtMostOneFetch(s: AppFlowState, n: nat)
    ensures FetchCount(s, n) == if s == GetBoardGames && n > 0 then 1 else 0
    ensures FetchCount(s, n) <= 1
    decreases n
  {
    if n > 0 {
      AtMostOneFetch(CheckStep(s).1, n - 1);
    }
  }
}
