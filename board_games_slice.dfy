/**
  The client's board-games state (`boardGamesSlice`): the fetched list, the
  filtered and sorted view of it the table shows, the sort field and
  direction, the search query, the fetch status, the modal mode and the
  record being edited. Each reducer and each pending, fulfilled and
  rejected handler of the four requests is a method of `BoardGames`; a
  request's payload, the refetched list, is an argument.

  A reducer that throws changes nothing. The name filter throws when it
  meets a record whose `name` is not a string (`toLowerCase` of a
  non-string), so those reducers leave the state as it was then.
*/
module BoardGamesSlice {
  import opened Wrappers
  import opened JsValues
  import opened BoardGameUtils
  import opened Sorting

  /** `DataFetchStatus`. */
  datatype DataFetchStatus = Idle | Loading | Failed

  /** `ModalTypes`. */
  datatype ModalType = NoModal | AddModal | EditModal | DeleteModal

  /** A record whose `name` is a string, so that `name.toLowerCase()` does not throw. */
  predicate HasStringName(d: Doc)
  {
    "name" in d && d["name"].Str?
  }

  /** Every record of `games` has a string name. */
  predicate AllNamed(games: seq<Doc>)
  {
    forall i :: 0 <= i < |games| ==> HasStringName(games[i])
  }

  /** `name.toLowerCase().includes(query)`. */
  predicate NameIncludes(d: Doc, query: string)
    requires HasStringName(d)
  {
    Includes(LowerCase(d["name"].s), query)
  }

  /**
    `games.filter(g => g.name.toLowerCase().includes(query))`: the records
    whose lowercased name contains `query`, in their order; `None` when the
    callback throws for some record.
  */
  function NameMatching(games: seq<Doc>, query: string): (r: Option<seq<Doc>>)
    ensures r.Some? <==> AllNamed(games)
    ensures r.Some? ==> multiset(r.value) <= multiset(games)
    ensures r.Some? ==> forall d :: d in r.value <==> d in games && HasStringName(d) && NameIncludes(d, query)
    ensures r.Some? ==> forall d :: multiset(r.value)[d] == if HasStringName(d) && NameIncludes(d, query) then multiset(games)[d] else 0
  {
    if games == [] then Some([])
    else if !HasStringName(games[0]) then None
    else
      var rest := NameMatching(games[1..], query);
      assert games == [games[0]] + games[1..];
      assert forall i :: 1 <= i < |games| ==> games[i] == games[1..][i - 1];
      match rest
      case None => None
      case Some(tail) => Some(if NameIncludes(games[0], query) then [games[0]] + tail else tail)
  }

  /** The records with a string name containing `query`, in their order, ignoring the ones that would throw. */
  function Matching(games: seq<Doc>, query: string): seq<Doc>
  {
    if games == [] then []
    else if HasStringName(games[0]) && NameIncludes(games[0], query) then [games[0]] + Matching(games[1..], query)
    else Matching(games[1..], query)
  }

  /** The filter throws exactly when some name is not a string, and otherwise returns `Matching`. */
  lemma {:induction false} NameMatchingIsMatching(games: seq<Doc>, query: string)
    ensures NameMatching(games, query) == if AllNamed(games) then Some(Matching(games, query)) else None
  {
    if games != [] {
      NameMatchingIsMatching(games[1..], query);
      assert forall i :: 1 <= i < |games| ==> games[i] == games[1..][i - 1];
    }
  }

  /** `Matching` of a concatenation is the concatenation of the parts' results. */
  lemma {:induction false} MatchingAppend(a: seq<Doc>, b: seq<Doc>, query: string)
    ensures Matching(a + b, query) == Matching(a, query) + Matching(b, query)
  {
    if a == [] {
      assert a + b == b;
    } else {
      assert (a + b)[0] == a[0];
      assert (a + b)[1..] == a[1..] + b;
      MatchingAppend(a[1..], b, query);
    }
  }

  /** Filtering a concatenation filters each part and keeps them in order; it throws exactly when one part does. */
  lemma NameMatchingAppend(a: seq<Doc>, b: seq<Doc>, query: string)
    ensures NameMatching(a + b, query).Some? <==> NameMatching(a, query).Some? && NameMatching(b, query).Some?
    ensures NameMatching(a + b, query).Some? ==>
      NameMatching(a + b, query).value == NameMatching(a, query).value + NameMatching(b, query).value
  {
    NameMatchingIsMatching(a + b, query);
    NameMatchingIsMatching(a, query);
    NameMatchingIsMatching(b, query);
    MatchingAppend(a, b, query);
    assert AllNamed(a + b) <==> AllNamed(a) && AllNamed(b) by {
      assert forall i :: 0 <= i < |a| ==> (a + b)[i] == a[i];
      assert forall i :: 0 <= i < |b| ==> (a + b)[|a| + i] == b[i];
    }
  }

  /** The query `filterBoardGames` filters by: the typed query, lowercased. */
  function TypedFilter(games: seq<Doc>, query: string): Option<seq<Doc>>
  {
    NameMatching(games, LowerCase(query))
  }

  /** The refilter after a successful add, edit or delete, as written: skipped for an empty query, and the query is not lowercased. */
  function Refilter(games: seq<Doc>, query: string): Option<seq<Doc>>
  {
    if query == "" then Some(games) else NameMatching(games, query)
  }

  /** The refilter as intended: the same lowercased query `filterBoardGames` uses. */
  function RefilterLowercased(games: seq<Doc>, query: string): Option<seq<Doc>>
  {
    if query == "" then Some(games) else NameMatching(games, LowerCase(query))
  }

  /** Every lowercased name contains the empty query. */
  lemma {:induction false} EmptyQueryMatchesAll(games: seq<Doc>)
    requires AllNamed(games)
    ensures NameMatching(games, "") == Some(games)
  {
    if games != [] {
      IncludesEmptyAndSelf(LowerCase(games[0]["name"].s));
      assert forall i :: 0 <= i < |games[1..]| ==> games[1..][i] == games[i + 1];
      EmptyQueryMatchesAll(games[1..]);
      assert games == [games[0]] + games[1..];
    }
  }

  /** After an add, edit or delete the intended refilter shows exactly what `filterBoardGames` with the same query shows. */
  lemma RefilterLowercasedIsTypedFilter(games: seq<Doc>, query: string)
    requires AllNamed(games)
    ensures RefilterLowercased(games, query) == TypedFilter(games, query)
  {
    if query == "" {
      EmptyQueryMatchesAll(games);
    }
  }

  /** The written refilter agrees with the intended one whenever the stored query has no capitals. */
  lemma RefilterAgreesOnLowercaseQuery(games: seq<Doc>, query: string)
    requires LowerCase(query) == query
    ensures Refilter(games, query) == RefilterLowercased(games, query)
  {
  }

  /** The written refilter loses `Catan` for the query `Cat`, which `filterBoardGames` keeps. */
  lemma RefilterDropsCapitalisedMatch()
    ensures var games := [map["name" := Str("Catan")]];
      TypedFilter(games, "Cat") == Some(games) && Refilter(games, "Cat") == Some([])
  {
    var games := [map["name" := Str("Catan")]];
    var lower := LowerCase("Catan");
    assert lower == "catan" by {
      assert lower[0] == 'c' && lower[1] == 'a' && lower[2] == 't' && lower[3] == 'a' && lower[4] == 'n';
    }
    assert LowerCase("Cat") == "cat" by {
      var q := LowerCase("Cat");
      assert q[0] == 'c' && q[1] == 'a' && q[2] == 't';
    }
    assert OccursAt(lower, "cat", 0);
    assert NameIncludes(games[0], "cat");
    assert games[1..] == [];
    forall i | 0 <= i <= |lower| - 3
      ensures !OccursAt(lower, "Cat", i)
    {
      assert lower[i] != 'C';
    }
    assert !NameIncludes(games[0], "Cat");
    assert NameMatching(games[1..], "Cat") == Some([]);
    assert NameMatching(games[1..], "cat") == Some([]);
    assert [games[0]] + [] == games;
    assert NameMatching(games, "cat") == Some(games);
    assert NameMatching(games, "Cat") == Some([]);
  }

  /** `find(g => g.id === id)`: the first record whose `id` is the string `id`. */
  function FindById(games: seq<Doc>, id: string): (r: Option<Doc>)
    ensures r.None? <==> forall i :: 0 <= i < |games| ==> Get(games[i], "id") != Some(Str(id))
    ensures r.Some? ==> exists i :: (
      && 0 <= i < |games| && games[i] == r.value && Get(games[i], "id") == Some(Str(id))
      && forall j :: 0 <= j < i ==> Get(games[j], "id") != Some(Str(id)))
  {
    if games == [] then None
    else if Get(games[0], "id") == Some(Str(id)) then Some(games[0])
    else
      var r := FindById(games[1..], id);
      assert forall i :: 1 <= i < |games| ==> games[i] == games[1..][i - 1];
      r
  }

  /** Whether a record is a base game (`type === BoardGamesTypes.BASE_GAME`). */
  predicate IsBaseGame(d: Doc)
  {
    Get(d, "type") == Some(Str(BaseGame))
  }

  /** `selectBaseGamesOnly`: the shown records that are base games, in their order. */
  function BaseGamesOnly(games: seq<Doc>): (r: seq<Doc>)
    ensures multiset(r) <= multiset(games)
    ensures forall d :: d in r <==> d in games && IsBaseGame(d)
    ensures forall d :: multiset(r)[d] == if IsBaseGame(d) then multiset(games)[d] else 0
  {
    if games == [] then []
    else
      var rest := BaseGamesOnly(games[1..]);
      assert games == [games[0]] + games[1..];
      if IsBaseGame(games[0]) then [games[0]] + rest else rest
  }

  /** Selecting from a concatenation selects from each part and keeps them in order. */
  lemma {:induction false} BaseGamesOnlyAppend(a: seq<Doc>, b: seq<Doc>)
    ensures BaseGamesOnly(a + b) == BaseGamesOnly(a) + BaseGamesOnly(b)
  {
    if a == [] {
      assert a + b == b;
    } else {
      assert (a + b)[0] == a[0];
      assert (a + b)[1..] == a[1..] + b;
      BaseGamesOnlyAppend(a[1..], b);
    }
  }

  /** The direction after `sortBoardGames(field)`: ascending for a new field, flipped for the current one. */
  function NextDirection(field: string, sortField: string, direction: SortDirection): SortDirection
  {
    if field != sortField then Ascending
    else if direction == Ascending then Descending
    else Ascending
  }

  /** Sorting twice by the same field returns to the original direction, and a new field always starts ascending. */
  lemma SortTogglesBack(field: string, other: string, direction: SortDirection)
    requires field != other
    ensures NextDirection(field, field, NextDirection(field, field, direction)) == direction
    ensures NextDirection(field, field, direction) != direction
    ensures NextDirection(other, field, direction) == Ascending
  {
  }

  /**
    The list shown after a successful add, edit or delete is a rearrangement
    of the refiltered records taken from the refetched list, each matching
    the stored query unless it is empty; with no field selected it keeps
    their order, and with a field selected and a consistent collator its
    keys are in the current sort order.
  */
  lemma RefreshedListIsSortedSublist(games: seq<Doc>, query: string, field: string, direction: SortDirection, collate: (string, string) -> int)
    requires Refilter(games, query).Some?
    ensures var shown := SortedBy(Refilter(games, query).value, field, direction, collate);
      && multiset(shown) == multiset(Refilter(games, query).value)
      && multiset(shown) <= multiset(games)
      && (forall d :: d in shown ==> d in games && (query != "" ==> HasStringName(d) && NameIncludes(d, query)))
      && (field == "none" ==> shown == Refilter(games, query).value)
    ensures var shown := SortedBy(Refilter(games, query).value, field, direction, collate);
      Consistent(collate) && field != "none" ==>
        forall i, j :: 0 <= i <= j < |shown| ==>
          if direction == Ascending then collate(SortKey(shown[i], field), SortKey(shown[j], field)) <= 0
          else collate(SortKey(shown[j], field), SortKey(shown[i], field)) <= 0
  {
    var kept := Refilter(games, query).value;
    SortedByPermutes(kept, field, direction, collate);
    if Consistent(collate) && field != "none" {
      SortedByOrdersKeys(kept, field, direction, collate);
    }
    var shown := SortedBy(kept, field, direction, collate);
    forall d | d in shown
      ensures d in kept
    {
      assert multiset(shown)[d] > 0;
    }
  }

  /** The board-games slice state. */
  class BoardGames {
    var sortField: string
    var sortDirection: SortDirection
    var boardGames: seq<Doc>
    var filteredBoardGames: seq<Doc>
    var status: DataFetchStatus
    var currentBoardGame: Doc
    var modalType: ModalType
    var searchQuery: string

    /** The shown list only ever holds records of the fetched list. */
    ghost predicate Valid()
      reads this
    {
      multiset(filteredBoardGames) <= multiset(boardGames)
    }

    /** The initial state, with the blank form record of `year`. */
    constructor (year: int)
      ensures Valid()
      ensures boardGames == [] && filteredBoardGames == [] && searchQuery == ""
      ensures sortField == "none" && sortDirection == Ascending
      ensures currentBoardGame == ClearBoardGame(year)
      ensures modalType == NoModal && status == Idle
    {
      boardGames := [];
      searchQuery := "";
      sortField := "none";
      currentBoardGame := ClearBoardGame(year);
      filteredBoardGames := [];
      modalType := NoModal;
      status := Idle;
      sortDirection := Ascending;
    }

    /** `resetFilters`: unsorted, unfiltered, ascending. */
    method ResetFilters()
      requires Valid()
      modifies this
      ensures Valid()
      ensures sortDirection == Ascending && sortField == "none" && searchQuery == ""
      ensures filteredBoardGames == boardGames
      ensures boardGames == old(boardGames) && status == old(status)
      ensures currentBoardGame == old(currentBoardGame) && modalType == old(modalType)
    {
      sortDirection := Ascending;
      sortField := "none";
      searchQuery := "";
      filteredBoardGames := boardGames;
    }

    /** `updateSearchQuery`: stores the query and filters nothing. */
    method UpdateSearchQuery(query: string)
      requires Valid()
      modifies this
      ensures Valid()
      ensures searchQuery == query
      ensures sortField == old(sortField) && sortDirection == old(sortDirection)
      ensures boardGames == old(boardGames) && filteredBoardGames == old(filteredBoardGames)
      ensures status == old(status) && currentBoardGame == old(currentBoardGame) && modalType == old(modalType)
    {
      searchQuery := query;
    }

    /**
      `updateModalType`: sets the mode; a non-empty `id` loads the shown
      record with that id, or the blank record when there is none; closing
      the modal always clears the record.
    */
    method UpdateModalType(modal: ModalType, id: Option<string>, year: int)
      requires Valid()
      modifies this
      ensures Valid()
      ensures modalType == modal
      ensures currentBoardGame ==
        if modal == NoModal then ClearBoardGame(year)
        else if id.Some? && id.value != "" then
          (match FindById(old(filteredBoardGames), id.value)
           case Some(found) => found
           case None => ClearBoardGame(year))
        else old(currentBoardGame)
      ensures sortField == old(sortField) && sortDirection == old(sortDirection) && searchQuery == old(searchQuery)
      ensures boardGames == old(boardGames) && filteredBoardGames == old(filteredBoardGames) && status == old(status)
    {
      modalType := modal;
      if id.Some? && id.value != "" {
        var found := FindById(filteredBoardGames, id.value);
        currentBoardGame := match found case Some(g) => g case None => ClearBoardGame(year);
      }
      if modal == NoModal {
        currentBoardGame := ClearBoardGame(year);
      }
    }

    /** `updateCurrentBoardGame`: one field of the edited record takes the typed value. */
    method UpdateCurrentBoardGame(field: string, value: Value)
      requires Valid()
      modifies this
      ensures Valid()
      ensures currentBoardGame == old(currentBoardGame)[field := value]
      ensures sortField == old(sortField) && sortDirection == old(sortDirection) && searchQuery == old(searchQuery)
      ensures boardGames == old(boardGames) && filteredBoardGames == old(filteredBoardGames)
      ensures status == old(status) && modalType == old(modalType)
    {
      currentBoardGame := currentBoardGame[field := value];
    }

    /**
      `sortBoardGames`: `expansions` is not sortable and changes nothing;
      otherwise the field and direction advance and the shown list is
      sorted by them.
    */
    method SortBoardGames(field: string, collate: (string, string) -> int)
      requires Valid()
      modifies this
      ensures Valid()
      ensures field == "expansions" ==>
        sortField == old(sortField) && sortDirection == old(sortDirection) && filteredBoardGames == old(filteredBoardGames)
      ensures field != "expansions" ==>
        && sortField == field
        && sortDirection == NextDirection(field, old(sortField), old(sortDirection))
        && filteredBoardGames == SortedBy(old(filteredBoardGames), field, sortDirection, collate)
      ensures boardGames == old(boardGames) && searchQuery == old(searchQuery)
      ensures status == old(status) && currentBoardGame == old(currentBoardGame) && modalType == old(modalType)
    {
      if field != "expansions" {
        if field != sortField {
          sortField := field;
          sortDirection := Ascending;
        } else {
          sortDirection := if sortDirection == Ascending then Descending else Ascending;
        }
        SortedByPermutes(filteredBoardGames, field, sortDirection, collate);
        filteredBoardGames := Sorter(filteredBoardGames, field, sortDirection, collate);
      }
    }

    /**
      `filterBoardGames`: stores the query and shows the fetched records
      whose lowercased name contains the lowercased query, in the current
      sort order.
    */
    method FilterBoardGames(query: string, collate: (string, string) -> int)
      requires Valid()
      modifies this
      ensures Valid()
      ensures TypedFilter(old(boardGames), query).None? ==>
        searchQuery == old(searchQuery) && filteredBoardGames == old(filteredBoardGames)
      ensures TypedFilter(old(boardGames), query).Some? ==>
        && searchQuery == query
        && filteredBoardGames == SortedBy(TypedFilter(old(boardGames), query).value, sortField, sortDirection, collate)
      ensures sortField == old(sortField) && sortDirection == old(sortDirection) && boardGames == old(boardGames)
      ensures status == old(status) && currentBoardGame == old(currentBoardGame) && modalType == old(modalType)
    {
      var matching := TypedFilter(boardGames, query);
      if matching.Some? {
        searchQuery := query;
        SortedByPermutes(matching.value, sortField, sortDirection, collate);
        filteredBoardGames := Sorter(matching.value, sortField, sortDirection, collate);
      }
    }

    /** The `pending` handler of every request. */
    method Pending()
      requires Valid()
      modifies this
      ensures Valid()
      ensures status == Loading
      ensures sortField == old(sortField) && sortDirection == old(sortDirection) && searchQuery == old(searchQuery)
      ensures boardGames == old(boardGames) && filteredBoardGames == old(filteredBoardGames)
      ensures currentBoardGame == old(currentBoardGame) && modalType == old(modalType)
    {
      status := Loading;
    }

    /** The `rejected` handler of every request. */
    method Rejected()
      requires Valid()
      modifies this
      ensures Valid()
      ensures status == Failed
      ensures sortField == old(sortField) && sortDirection == old(sortDirection) && searchQuery == old(searchQuery)
      ensures boardGames == old(boardGames) && filteredBoardGames == old(filteredBoardGames)
      ensures currentBoardGame == old(currentBoardGame) && modalType == old(modalType)
    {
      status := Failed;
    }

    /** `getBoardGames.fulfilled`: shows the whole fetched list, dropping the active filter and sort from the view. */
    method GetBoardGamesFulfilled(fetched: seq<Doc>)
      requires Valid()
      modifies this
      ensures Valid()
      ensures status == Idle && boardGames == fetched && filteredBoardGames == fetched
      ensures sortField == old(sortField) && sortDirection == old(sortDirection) && searchQuery == old(searchQuery)
      ensures currentBoardGame == old(currentBoardGame) && modalType == old(modalType)
    {
      status := Idle;
      boardGames := fetched;
      filteredBoardGames := fetched;
    }

    /** The list refresh shared by the three mutation handlers: refilter by the stored query, then sort. */
    method Refresh(fetched: seq<Doc>, collate: (string, string) -> int)
      requires Refilter(fetched, searchQuery).Some?
      modifies this
      ensures Valid()
      ensures sortField == old(sortField) && sortDirection == old(sortDirection) && searchQuery == old(searchQuery)
      ensures boardGames == fetched
      ensures filteredBoardGames == SortedBy(Refilter(fetched, searchQuery).value, sortField, sortDirection, collate)
      ensures status == old(status) && currentBoardGame == old(currentBoardGame) && modalType == old(modalType)
    {
      boardGames := fetched;
      filteredBoardGames := fetched;
      if searchQuery != "" {
        filteredBoardGames := NameMatching(boardGames, searchQuery).value;
      }
      SortedByPermutes(filteredBoardGames, sortField, sortDirection, collate);
      filteredBoardGames := Sorter(filteredBoardGames, sortField, sortDirection, collate);
    }

    /**
      `addBoardGame.fulfilled` and `editBoardGame.fulfilled`: idle, modal
      closed, blank record, and the refetched list refiltered and sorted.
    */
    method SaveFulfilled(fetched: seq<Doc>, collate: (string, string) -> int, year: int)
      requires Valid()
      modifies this
      ensures Valid()
      ensures Refilter(fetched, old(searchQuery)).None? ==> unchanged(this)
      ensures Refilter(fetched, old(searchQuery)).Some? ==>
        && status == Idle && modalType == NoModal && currentBoardGame == ClearBoardGame(year)
        && boardGames == fetched
        && filteredBoardGames == SortedBy(Refilter(fetched, old(searchQuery)).value, sortField, sortDirection, collate)
        && sortField == old(sortField) && sortDirection == old(sortDirection) && searchQuery == old(searchQuery)
    {
      if Refilter(fetched, searchQuery).Some? {
        status := Idle;
        modalType := NoModal;
        currentBoardGame := ClearBoardGame(year);
        Refresh(fetched, collate);
      }
    }

    /** `deleteBoardGame.fulfilled`: idle and the refetched list refiltered and sorted; the modal and the edited record stay. */
    method DeleteFulfilled(fetched: seq<Doc>, collate: (string, string) -> int)
      requires Valid()
      modifies this
      ensures Valid()
      ensures Refilter(fetched, old(searchQuery)).None? ==> unchanged(this)
      ensures Refilter(fetched, old(searchQuery)).Some? ==>
        && status == Idle && boardGames == fetched
        && filteredBoardGames == SortedBy(Refilter(fetched, old(searchQuery)).value, sortField, sortDirection, collate)
        && modalType == old(modalType) && currentBoardGame == old(currentBoardGame)
        && sortField == old(sortField) && sortDirection == old(sortDirection) && searchQuery == old(searchQuery)
    {
      if Refilter(fetched, searchQuery).Some? {
        status := Idle;
        Refresh(fetched, collate);
      }
    }
  }
}
