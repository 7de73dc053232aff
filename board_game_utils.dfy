/**
  The client's list utilities: `sorter`, which sorts a copy of the list by
  one field in either direction with a natural-order string collator, and
  `clearBoardGame`, the blank record behind the add form.

  The collator is a parameter `collate`: any comparator on strings that is
  consistent in the sense of `Sorting.Consistent` (numeric, base-sensitivity
  collation is one).
*/
module BoardGameUtils {
  import opened Wrappers
  import opened JsValues
  import opened Sorting

  /** `SortDirections`. */
  datatype SortDirection = Ascending | Descending

  /** The string a record is compared by: `record[field] || "-"`, converted to a string. */
  function SortKey(d: Doc, field: string): string
  {
    if Truthy(Get(d, field)) then ToJsString(d[field]) else "-"
  }

  /** The comparator `sorter` passes to `sort`: the collator on the keys, with the arguments swapped for descending order. */
  function RecordOrder(field: string, direction: SortDirection, collate: (string, string) -> int): (Doc, Doc) -> int
  {
    (a: Doc, b: Doc) =>
      if direction == Ascending then collate(SortKey(a, field), SortKey(b, field))
      else collate(SortKey(b, field), SortKey(a, field))
  }

  /** The list `sorter` returns: the input itself for `"none"`, otherwise its stable sort by `RecordOrder`. */
  function SortedBy(games: seq<Doc>, field: string, direction: SortDirection, collate: (string, string) -> int): seq<Doc>
  {
    if field == "none" then games else InsertionSort(games, RecordOrder(field, direction, collate))
  }

  /** `sorter`: copies the list into a fresh array and, when a field is selected, sorts the copy in place. */
  method Sorter(toSort: seq<Doc>, field: string, direction: SortDirection, collate: (string, string) -> int)
    returns (sorted: seq<Doc>)
    ensures sorted == SortedBy(toSort, field, direction, collate)
  {
    var temp := new Doc[|toSort|](i requires 0 <= i < |toSort| => toSort[i]);
    assert temp[..] == toSort;
    if field != "none" {
      SortInPlace(temp, RecordOrder(field, direction, collate));
    }
    sorted := temp[..];
  }

  /** The record order is consistent whenever the collator is, in both directions. */
  lemma RecordOrderConsistent(field: string, direction: SortDirection, collate: (string, string) -> int)
    requires Consistent(collate)
    ensures Consistent(RecordOrder(field, direction, collate))
  {
    var c := RecordOrder(field, direction, collate);
    forall x, y
      ensures c(x, y) < 0 <==> c(y, x) > 0
    {
      var kx, ky := SortKey(x, field), SortKey(y, field);
      assert collate(kx, ky) < 0 <==> collate(ky, kx) > 0;
    }
    forall x, y, z | AtMost(c, x, y) && AtMost(c, y, z)
      ensures AtMost(c, x, z)
    {
      var kx, ky, kz := SortKey(x, field), SortKey(y, field), SortKey(z, field);
      if direction == Ascending {
        Transitive(collate, kx, ky, kz);
      } else {
        Transitive(collate, kz, ky, kx);
      }
    }
  }

  /** `sorter` returns a rearrangement of its input: the same records, as often as before. */
  lemma SortedByPermutes(games: seq<Doc>, field: string, direction: SortDirection, collate: (string, string) -> int)
    ensures |SortedBy(games, field, direction, collate)| == |games|
    ensures multiset(SortedBy(games, field, direction, collate)) == multiset(games)
  {
    if field != "none" {
      InsertionSortPermutes(games, RecordOrder(field, direction, collate));
    }
  }

  /**
    With a field selected, the keys of the result are in collator order:
    non-decreasing for ascending, non-increasing for descending, between
    any two positions.
  */
  lemma SortedByOrdersKeys(games: seq<Doc>, field: string, direction: SortDirection, collate: (string, string) -> int)
    requires Consistent(collate)
    requires field != "none"
    ensures var r := SortedBy(games, field, direction, collate);
      forall i, j :: 0 <= i <= j < |r| ==>
        if direction == Ascending then collate(SortKey(r[i], field), SortKey(r[j], field)) <= 0
        else collate(SortKey(r[j], field), SortKey(r[i], field)) <= 0
  {
    var c := RecordOrder(field, direction, collate);
    var r := SortedBy(games, field, direction, collate);
    RecordOrderConsistent(field, direction, collate);
    InsertionSortSorted(games, c);
    forall i, j | 0 <= i <= j < |r|
      ensures c(r[i], r[j]) <= 0
    {
      SortedPairwise(r, c, i, j);
    }
  }

  /** Records whose keys the collator ranks equal keep their relative order: the sort is stable. */
  lemma SortedByIsStable(games: seq<Doc>, field: string, direction: SortDirection, collate: (string, string) -> int, y: Doc)
    requires Consistent(collate)
    ensures var c := RecordOrder(field, direction, collate);
      EquivalentTo(SortedBy(games, field, direction, collate), c, y) == EquivalentTo(games, c, y)
  {
    if field != "none" {
      RecordOrderConsistent(field, direction, collate);
      InsertionSortStable(games, RecordOrder(field, direction, collate), y);
    }
  }

  /** Records whose field is missing or falsy all compare as `"-"`, so they rank equal among themselves. */
  lemma FalsyFieldsRankEqual(a: Doc, b: Doc, field: string, direction: SortDirection, collate: (string, string) -> int)
    requires Consistent(collate)
    requires !Truthy(Get(a, field)) && !Truthy(Get(b, field))
    ensures SortKey(a, field) == "-" && SortKey(b, field) == "-"
    ensures RecordOrder(field, direction, collate)(a, b) == 0
  {
    assert !(collate("-", "-") < 0);
  }

  /** Sorting an already sorted list by the same field and direction changes nothing. */
  lemma SortedByIdempotent(games: seq<Doc>, field: string, direction: SortDirection, collate: (string, string) -> int)
    requires Consistent(collate)
    ensures var once := SortedBy(games, field, direction, collate);
      SortedBy(once, field, direction, collate) == once
  {
    if field != "none" {
      var c := RecordOrder(field, direction, collate);
      RecordOrderConsistent(field, direction, collate);
      InsertionSortSorted(games, c);
      InsertionSortOfSorted(InsertionSort(games, c), c);
    }
  }

  /** Every stable sort of the list by the same order returns what `sorter` returns, whatever algorithm an engine uses. */
  lemma SortedByIsTheStableSort(r: seq<Doc>, games: seq<Doc>, field: string, direction: SortDirection, collate: (string, string) -> int)
    requires Consistent(collate)
    requires field != "none"
    requires Sorted(r, RecordOrder(field, direction, collate))
    requires Stable(r, games, RecordOrder(field, direction, collate))
    ensures r == SortedBy(games, field, direction, collate)
  {
    RecordOrderConsistent(field, direction, collate);
    StableSortIsInsertionSort(r, games, RecordOrder(field, direction, collate));
  }

  /** `BoardGamesTypes.BASE_GAME`. */
  const BaseGame := "BaseGame"
  /** The `baseGame` of a record that has none. */
  const NoBaseGame := "-1"

  /**
    `clearBoardGame`: the blank form record, a standalone base game with no
    base game and no `id` yet, for one to twenty players, released in
    `year`.
  */
  function ClearBoardGame(year: int): (r: Doc)
    ensures "id" !in r
    ensures Get(r, "type") == Some(Str(BaseGame))
    ensures Get(r, "baseGame") == Some(Str(NoBaseGame)) && Get(r, "standalone") == Some(Bool(true))
    ensures Get(r, "min_players") == Some(Num(1)) && Get(r, "max_players") == Some(Num(20))
    ensures Get(r, "name") == Some(Str("")) && Get(r, "releaseYear") == Some(Num(year))
  {
    map[
      "name" := Str(""),
      "publisher" := Str(""),
      "releaseYear" := Num(year),
      "max_players" := Num(20),
      "min_players" := Num(1),
      "type" := Str(BaseGame),
      "baseGame" := Str(NoBaseGame),
      "standalone" := Bool(true)
    ]
  }
}
