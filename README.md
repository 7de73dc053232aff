# Board-game catalog: store handlers, list utilities and client state

A Dafny model of the board-game catalog. The catalog has two halves:

- **The HTTP handlers** (`functions/src/database.ts`). `post`, `put`, `delete`, `get` and `populate` act on one Firestore collection, `board_games`. The add and delete handlers keep two fields in step across records: an expansion's `baseGame` and its base game's `expansions` list.
- **The web client**. The `sorter` and `clearBoardGame` utilities. The board-games Redux slice: reducers, request handlers and the `selectBaseGamesOnly` selector. The flow slice that gates the first fetch.

Module by module:

- `Wrappers` and `JsValues` (`js_values.dfy`): JSON values and records. Also the few JavaScript operations the code relies on: truthiness, `||`, `===`, `String(v)`, `toLowerCase` and `includes`.
- `Sorting` (`sorting.dfy`): `Array.prototype.sort` with a comparison function. Section 23.1.3.30 of ECMA-262 requires this sort to be stable.
  - The reference definition is an insertion sort, `InsertionSort`. It is proved sorted, a permutation and stable.
  - `StableSortIsInsertionSort` proves that every sorted, stable rearrangement of a sequence equals that result. So the model loses nothing by fixing one algorithm.
  - `SortInPlace` sorts an `array` in place and is proved equal to `InsertionSort`.
- `Firestore` (`firestore.dfy`): the collection as a class, `Collection`, holding a `map` from key to document. Its methods are the write primitives the handlers use: `set`, `update`, `delete` and `add`. The module also has the `arrayUnion` transform and the `array-contains` and `==` queries.
- `Database` (`database.ts` handlers):
  - Each handler is a method that performs the source's writes one at a time on a `Collection`.
  - Each handler is proved to produce the response and store of a specification function: `AddSpec`, `EditSpec`, `DeleteSpec` or `PopulateSpec`.
  - Lemmas about those functions state the guarantees. In particular they cover the links between records, `Linked`: every expansion is listed exactly once by its base game, and every listed entry points back.
- `BoardGameUtils` (`utils.ts`): `sorter`, which copies the list into a fresh array and sorts it in place. Also the comparator, and `clearBoardGame`. The `Intl.Collator` is a parameter `collate`, any comparator that is consistent in the ECMA-262 sense.
- `BoardGamesSlice` (`board_games/slice.ts`):
  - The slice state is a class, `BoardGames`.
  - Every reducer and every pending, fulfilled and rejected handler is a method on it.
  - Its invariant `Valid()` says that the shown list holds only fetched records, counted with multiplicity.
- `Flow` (`flow/slice.ts`): the flow state as a class, `FlowSlice`, plus `checkBoardGames`. Repeated calls trigger at most one fetch.

Facts about the code that the model keeps:

- `put` uses `set`, so editing a missing id creates the record (`EditSpec`).
- Firestore's `delete` succeeds on a missing document. So deleting a missing id answers 204 and still runs both repair passes (`DeleteSpec`).
- The delete repair writes `null` to `baseGame`.
- The delete repair removes only the bare-string entries equal to the id, while add and populate store `{ id, name }` objects there. See Findings.
- Each repair update goes to `doc(game.id)`, and `{ id: d.id, ...d.data() }` lets a stored `id` field override the document key (`QueryResult`).
  - When a stored `id` differs from its key, the update lands on that other document or fails (`DeleteFollowsStoredId`).
  - Every handler keeps each stored `id` equal to its key (`StoredIdsMatch`), and under that invariant the repair passes update each result under its own key (`DeleteByKey`).
- Create validates neither `name` nor the kind.
  - A missing `name` does fail, because Firestore refuses an `undefined` field value in the union.
  - A missing or unusable `baseGame` also fails. In both cases the answer is 500 and the new record stays stored.

## Model

| member | source | states |
|---|---|---|
| JsValues.OrElse | functions/src/database.ts:33-38 | `v \|\| fallback` is `v` exactly when `v` is truthy, otherwise the fallback |
| JsValues.LowerCase | web_app/src/features/board_games/slice.ts:131 | lowercasing keeps the length and maps every character independently through the ASCII lowercase map |
| JsValues.LowerCaseIdempotent | web_app/src/features/board_games/slice.ts:131 | lowercasing an already lowercased string changes nothing |
| JsValues.IncludesEmptyAndSelf | web_app/src/features/board_games/slice.ts:131 | every name includes the empty query and includes itself |
| Sorting.InsertPermutes | web_app/src/features/board_games/utils.ts:32 | inserting one element adds exactly that element to the multiset |
| Sorting.InsertionSortPermutes | web_app/src/features/board_games/utils.ts:32 | the sort returns a rearrangement of its input: same elements, same multiplicities |
| Sorting.SortedPairwise | web_app/src/features/board_games/utils.ts:32 | under a consistent comparator, a list ordered between neighbours is ordered between any two positions |
| Sorting.InsertionSortSorted | web_app/src/features/board_games/utils.ts:32 | under a consistent comparator the result is in comparator order |
| Sorting.InsertionSortStable | web_app/src/features/board_games/utils.ts:32 | elements the comparator ranks equal keep their relative order (stability) |
| Sorting.StableSortIsInsertionSort | web_app/src/features/board_games/utils.ts:32 | any sorted, stable rearrangement equals the reference sort, so the result does not depend on the engine's algorithm |
| Sorting.InsertionSortOfSorted | web_app/src/features/board_games/utils.ts:32 | sorting an already sorted list leaves it as it is |
| Sorting.SinkLast | web_app/src/features/board_games/utils.ts:32 | the inner pass in place: the element after a sorted front moves left past the strictly greater elements, and ends where insertion puts it |
| Sorting.ExtendFront | web_app/src/features/board_games/utils.ts:32 | one outer pass in place: the sorted front of the array grows by one element |
| Sorting.SortInPlace | web_app/src/features/board_games/utils.ts:32-44 | sorting the array in place leaves exactly the stable sort of its old contents |
| Firestore.ArrayUnion | functions/src/database.ts:111 | `FieldValue.arrayUnion(ref)` on a field: the old array with `ref` appended unless already present, a new one-element array when the field is not an array |
| Firestore.WhereArrayContains | functions/src/database.ts:170-175 | the `array-contains` query: the keys of the documents whose field is an array holding the value |
| Firestore.WhereEqual | functions/src/database.ts:191-193 | the `==` query: the keys of the documents whose field equals the value |
| Firestore.ArrayUnionKeeps | functions/src/database.ts:111 | `arrayUnion` keeps every earlier element in place and adds the new one once, only when it is absent |
| Firestore.ArrayUnionIdempotent | functions/src/database.ts:111 | a repeated union with the same element adds nothing |
| Firestore.FreshKey | functions/src/database.ts:101 | the key `add` assigns is usable and not yet present in the collection |
| Firestore.Collection.constructor | functions/src/database.ts:99 | the collection starts with the given documents, all under usable keys |
| Firestore.Collection.Set | functions/src/database.ts:142 | `set` writes the document under a usable key, creating it if absent, and fails without writing for an unusable key |
| Firestore.Collection.Update | functions/src/database.ts:104 | `update` changes one field of an existing document and fails without writing when the document is missing |
| Firestore.Collection.Delete | functions/src/database.ts:168 | `delete` removes the key whether or not it was present, and fails without writing for an unusable key |
| Firestore.Collection.Add | functions/src/database.ts:101 | `add` stores the document under a key that was not present and returns that key |
| Database.AddSpec | functions/src/database.ts:85-124 | the outcome of a POST: the record stored under the new key with `id` set, then the union into the base game unless `baseGame` is `"-1"`; 500 without rollback when the base game or `name` is missing |
| Database.AddBoardGame | functions/src/database.ts:85-124 | a method other than POST gets 400 with the store unchanged; otherwise the response and store agree with `AddSpec` under a key that was not present |
| Database.AddKeepsLinks | functions/src/database.ts:101-113 | a successful add of a record with no expansions keeps the store linked, and its base game lists it exactly once |
| Database.AddedRecordWithoutLinkKeepsLinks | functions/src/database.ts:101-104 | storing a record that points at no base game under a new key keeps the store linked |
| Database.AddedLinkKeepsLinks | functions/src/database.ts:105-113 | storing an expansion and unioning `{ id, name }` into its base game keeps the store linked and lists the new key exactly once |
| Database.AddedLinkForward | functions/src/database.ts:105-113 | after that union, every expansion's pointer is listed exactly once in its base game |
| Database.AddedLinkBack | functions/src/database.ts:105-113 | after that union, every listed entry refers to a stored record that points back |
| Database.RetriedUnionAddsNothing | functions/src/database.ts:107-112 | retrying the base-game update for the same reference leaves the base game as one update did: no duplicate reverse link |
| Database.AddWithMissingBaseKeepsRecord | functions/src/database.ts:105-121 | when the base game does not exist, add answers 500 and the new record stays stored, without rollback |
| Database.AddWithoutBaseTouchesOnlyNewRecord | functions/src/database.ts:101-113 | with `baseGame` `"-1"`, add answers 204, adds one key whose `id` is that key, and changes no other document |
| Database.EditSpec | functions/src/database.ts:126-153 | the outcome of a PUT: `set` of the whole record at its string `id`, and 500 without a usable `id` |
| Database.EditBoardGame | functions/src/database.ts:126-153 | a method other than PUT gets 400 with the store unchanged; otherwise the response and store agree with `EditSpec` |
| Database.EditReplacesOnlyItsRecord | functions/src/database.ts:142 | a successful edit replaces the record at its `id` wholesale, creates it if absent, and leaves every other record alone |
| Database.EditCanBreakLinks | functions/src/database.ts:142 | edit repairs no links: moving an expansion off its base game leaves a linked store unlinked |
| Database.RemoveValue | functions/src/database.ts:186 | the filtered array holds no element equal to the id and keeps every other element as often as before |
| Database.RepairField | functions/src/database.ts:183-201 | no repair update writes the `id` field |
| Database.QueryResult | functions/src/database.ts:176 | a query result carries the stored `id` field when there is one and the document key otherwise; every other field is the stored one |
| Database.RepairValueOfResult | functions/src/database.ts:184-186 | the written value is the same whether computed from the query result or from the stored record |
| Database.RepairEach | functions/src/database.ts:178-189 | one repair pass issues an update for every query result, in an order that lists each result once, and leaves the store and success flag of `RepairWrites` for that order |
| Database.StripLoop | functions/src/database.ts:170-189 | the first repair pass runs the `array-contains` query and then `RepairEach` over exactly its results |
| Database.ClearBaseLoop | functions/src/database.ts:191-202 | the second repair pass runs the `baseGame ==` query and then `RepairEach` over exactly its results |
| Database.RepairWrites | functions/src/database.ts:178-202 | the updates of one pass in a given order: each goes to its result's `id`, fails without writing unless that names a stored document, and does not stop the later ones |
| Database.DeleteSpec | functions/src/database.ts:155-213 | the outcome of a DELETE for given query orders: the deletion, then the first pass, then the second pass only if every first-pass update succeeded; 500 for a missing or unusable id or a failed update |
| Database.DeleteBoardGame | functions/src/database.ts:155-213 | a method other than DELETE gets 400 with the store unchanged; otherwise the response and store agree with `DeleteSpec` for the order the updates were made in, which lists each query result once, including the missing-id path and the failed-update paths |
| Database.RepairWritesByKey | functions/src/database.ts:176-202 | when every stored `id` matches its key, a repair pass succeeds and updates exactly the query results, each under its own key, in any order |
| Database.PassesByKey | functions/src/database.ts:170-202 | the two passes by key are `StripPass` and `ClearBasePass` |
| Database.RepairByKeyKeepsIds | functions/src/database.ts:183-201 | a pass by key keeps every key and every stored `id` |
| Database.DeleteByKey | functions/src/database.ts:168-203 | when every stored `id` matches its key, deleting a usable id answers 204 and leaves the two passes made key by key, whatever order the queries list their results in |
| Database.DeleteFollowsStoredId | functions/src/database.ts:176-189 | a record `K` with stored `id` `"X"` listing `"s"`: deleting `"s"` sends `K`'s update to the missing `X`, answers 500 and leaves `K` listing `"s"` |
| Database.RepairWritesKeepsIds | functions/src/database.ts:178-202 | a repair pass in any order writes no `id` and adds no key, so stored ids keep matching their keys |
| Database.DeleteKeepsStoredIds | functions/src/database.ts:155-213 | delete keeps every stored `id` equal to its key, whatever the order of its updates |
| Database.AddKeepsStoredIds | functions/src/database.ts:101-113 | add stores the new record with its own key as `id` and otherwise writes only `expansions`, so stored ids keep matching their keys |
| Database.EditKeepsStoredIds | functions/src/database.ts:142 | edit stores the record under its own `id`, so stored ids keep matching their keys |
| Database.WriteAllKeepsIds | functions/src/database.ts:42-47 | the populate writes store records without their `id`, under usable keys |
| Database.PopulateKeepsStoredIds | functions/src/database.ts:14-59 | populate keeps every stored `id` equal to its key |
| Database.RemoveValueKeepsRefs | functions/src/database.ts:186 | filtering out a string never removes an `{ id, name }` entry |
| Database.DeleteRemovesStringRefs | functions/src/database.ts:168-202 | when every stored `id` matches its key, delete answers 204, removes the record and the string `id` from every `expansions`, keeping every other element as often as before; it nulls `baseGame` exactly where it was `id`; every other field stays |
| Database.DeleteKeepsForwardLinks | functions/src/database.ts:168-202 | when every stored `id` matches its key, delete keeps every remaining expansion listed exactly once in its base game |
| Database.DeleteLeavesStaleEntry | functions/src/database.ts:173-186 | delete as written finds no query results for an expansion listed as `{ id, name }`, answers 204 and leaves its base game listing the deleted expansion in a store that was linked |
| Database.DeleteRepairedSpec | functions/src/database.ts:168-202 | the corrected delete: every entry referring to the deleted id is removed, each result updated under its own key |
| Database.RemoveRefs | functions/src/database.ts:186 | the corrected filter keeps only elements that refer neither as a string nor as an object to the deleted id, and keeps the reference counts of every other key |
| Database.RepairedRecord | functions/src/database.ts:168-202 | after the corrected delete, a remaining record has lost all references to the id and has its `baseGame` cleared if it was the id |
| Database.DeleteRepairedKeepsForwardLinks | functions/src/database.ts:168-202 | the corrected delete keeps every expansion listed exactly once in its base game |
| Database.DeleteRepairedKeepsBackLinks | functions/src/database.ts:168-202 | after the corrected delete every entry points at a stored record that points back, and none refers to the deleted id |
| Database.DeleteRepairedKeepsLinks | functions/src/database.ts:168-202 | the corrected delete answers 204, removes exactly the record and keeps a linked store linked |
| Database.GetBoardGames | functions/src/database.ts:67-73 | get returns every stored record once, each with `id` set to its key, and nothing else |
| Database.FindName | functions/src/database.ts:33-34 | the name looked up for an expansion id is the truthy `name` of the first record with that id, else `""` |
| Database.MapRecord | functions/src/database.ts:24-40 | the mapping of one fetched record: `players` dropped, `{ id, name }` expansions, limits from `players` or `null`; it throws when `players` is missing or null, or when `expansions` is neither nullish nor an array |
| Database.PopulateMapping | functions/src/database.ts:24-40 | `boardGames.map(...)` over the whole list, throwing when one record's mapping throws |
| Database.PopulateMappingShape | functions/src/database.ts:24-40 | the mapping keeps the length and drops `players`; limits come from `players` with falsy ones as `null`; each expansion id becomes `{ id, name }` with the looked-up name; a missing list becomes `[]`; every other field stays |
| Database.WriteAll | functions/src/database.ts:42-47 | the `set` writes of populate in list order; a record without a usable `id` writes nothing |
| Database.PopulateSpec | functions/src/database.ts:14-59 | the outcome of populate: 500 with the store unchanged when the fetch or the mapping fails; otherwise the writes, and 500 when one of them failed |
| Database.WriteRecord | functions/src/database.ts:44-45 | one populate write stores the record without its `id` under that id, and fails without writing when the id is unusable |
| Database.WriteRecords | functions/src/database.ts:42-47 | the populate writes leave the store of `WriteAll`, and report success exactly when every record had a usable id |
| Database.PopulateBoardGames | functions/src/database.ts:14-59 | populate's response and store agree with `PopulateSpec`: 500 with the store unchanged when the fetch or the mapping fails |
| Database.WriteAllStores | functions/src/database.ts:42-47 | a mapped record whose id no later record reuses ends up stored, without `id`, under that id |
| Database.WriteAllKeepsOthers | functions/src/database.ts:42-47 | keys no mapped record is written under keep their old record, or stay absent |
| BoardGameUtils.SortKey | web_app/src/features/board_games/utils.ts:36-42 | the key compared for a record: `String(record[field])` when truthy, else `"-"` |
| BoardGameUtils.RecordOrder | web_app/src/features/board_games/utils.ts:32-44 | the comparator passed to `sort`: the collator on the keys, arguments swapped for descending |
| BoardGameUtils.Sorter | web_app/src/features/board_games/utils.ts:23-47 | `sorter` returns the input for `"none"` and otherwise its stable sort by the record comparator; the input sequence is a value and is never changed |
| BoardGameUtils.RecordOrderConsistent | web_app/src/features/board_games/utils.ts:32-44 | the record comparator is consistent in both directions whenever the collator is |
| BoardGameUtils.SortedByPermutes | web_app/src/features/board_games/utils.ts:28-46 | the result of `sorter` is a permutation of its input, of the same length |
| BoardGameUtils.SortedByOrdersKeys | web_app/src/features/board_games/utils.ts:34-43 | with a field selected, keys `record[field] \|\| "-"` are non-decreasing ascending and non-increasing descending under the collator, between any two positions |
| BoardGameUtils.SortedByIsStable | web_app/src/features/board_games/utils.ts:32 | records whose keys the collator ranks equal keep their original relative order |
| BoardGameUtils.FalsyFieldsRankEqual | web_app/src/features/board_games/utils.ts:36-42 | records with a falsy or missing field all compare as `"-"` and rank equal |
| BoardGameUtils.SortedByIdempotent | web_app/src/features/board_games/utils.ts:23-46 | sorting a sorted list again by the same field and direction changes nothing |
| BoardGameUtils.SortedByIsTheStableSort | web_app/src/features/board_games/utils.ts:32-44 | every sorted and stable rearrangement is what `sorter` returns |
| BoardGameUtils.ClearBoardGame | web_app/src/features/board_games/utils.ts:11-20 | the blank record has no `id`, type BaseGame, `baseGame` `"-1"`, standalone, one to twenty players, an empty name and the given year |
| BoardGamesSlice.NameMatching | web_app/src/features/board_games/slice.ts:130-132 | the name filter succeeds exactly when every name is a string; it then keeps every record whose lowercased name contains the query as often as it occurs, and no other |
| BoardGamesSlice.NameMatchingIsMatching | web_app/src/features/board_games/slice.ts:130-132 | the filter throws exactly when some name is not a string and otherwise returns the reference filter `Matching` |
| BoardGamesSlice.MatchingAppend | web_app/src/features/board_games/slice.ts:130-132 | the reference filter of a concatenation is the concatenation of the filtered parts |
| BoardGamesSlice.NameMatchingAppend | web_app/src/features/board_games/slice.ts:130-132 | filtering a concatenation throws exactly when filtering a part does, and otherwise concatenates the filtered parts, so the kept records stay in their order |
| BoardGamesSlice.TypedFilter | web_app/src/features/board_games/slice.ts:128-139 | `filterBoardGames` filters by the lowercased typed query |
| BoardGamesSlice.Refilter | web_app/src/features/board_games/slice.ts:175-186 | the refilter after a mutation: none for an empty stored query, otherwise by the stored query as it is |
| BoardGamesSlice.EmptyQueryMatchesAll | web_app/src/features/board_games/slice.ts:130-132 | filtering by the empty query keeps the whole list |
| BoardGamesSlice.RefilterLowercasedIsTypedFilter | web_app/src/features/board_games/slice.ts:177-181 | the corrected refilter after a mutation shows exactly what `filterBoardGames` shows for the stored query |
| BoardGamesSlice.RefilterAgreesOnLowercaseQuery | web_app/src/features/board_games/slice.ts:177-181 | the refilter as written agrees with the corrected one whenever the stored query has no capitals |
| BoardGamesSlice.RefilterDropsCapitalisedMatch | web_app/src/features/board_games/slice.ts:177-181 | for the query `Cat`, `filterBoardGames` keeps `Catan` but the refilter as written drops it |
| BoardGamesSlice.FindById | web_app/src/features/board_games/slice.ts:79-81 | the lookup finds nothing exactly when no shown record has that `id`, and otherwise returns the first one that does |
| BoardGamesSlice.BaseGamesOnly | web_app/src/features/board_games/slice.ts:292-298 | the selector keeps every shown record of type BaseGame as often as it occurs, and no other |
| BoardGamesSlice.BaseGamesOnlyAppend | web_app/src/features/board_games/slice.ts:292-298 | selecting from a concatenation concatenates the selections, so the kept records stay in their order |
| BoardGamesSlice.NextDirection | web_app/src/features/board_games/slice.ts:110-118 | ascending for a new sort field, the other direction for the current one |
| BoardGamesSlice.SortTogglesBack | web_app/src/features/board_games/slice.ts:110-118 | a new sort field starts ascending; the same field flips the direction, and two flips return to the start |
| BoardGamesSlice.RefreshedListIsSortedSublist | web_app/src/features/board_games/slice.ts:175-186 | after a mutation, the shown list is a permutation of the refiltered refetched list, each record matching a non-empty stored query; with no field it keeps the refiltered order, and with a field and a consistent collator its keys are in the current sort order |
| BoardGamesSlice.BoardGames.constructor | web_app/src/features/board_games/slice.ts:27-53 | the initial state: empty lists, empty query, no sort field, ascending, idle, no modal, and the blank record |
| BoardGamesSlice.BoardGames.ResetFilters | web_app/src/features/board_games/slice.ts:60-65 | reset gives ascending, `"none"`, `""` and the whole fetched list, with nothing else changed |
| BoardGamesSlice.BoardGames.UpdateSearchQuery | web_app/src/features/board_games/slice.ts:67-71 | only the stored query changes; nothing is refiltered |
| BoardGamesSlice.BoardGames.UpdateModalType | web_app/src/features/board_games/slice.ts:73-88 | sets the modal; with an id loads the first shown record with it, or the blank one; closing always leaves the blank record; nothing else changes |
| BoardGamesSlice.BoardGames.UpdateCurrentBoardGame | web_app/src/features/board_games/slice.ts:90-104 | only the named field of the edited record changes |
| BoardGamesSlice.BoardGames.SortBoardGames | web_app/src/features/board_games/slice.ts:106-126 | `expansions` changes nothing; any other field advances field and direction, and the shown list becomes its sort by them |
| BoardGamesSlice.BoardGames.FilterBoardGames | web_app/src/features/board_games/slice.ts:128-139 | stores the query and shows the fetched records whose lowercased name contains the lowercased query, in the current sort order; a throwing filter changes nothing |
| BoardGamesSlice.BoardGames.Pending | web_app/src/features/board_games/slice.ts:142-144 | every request's pending handler sets the status to loading and nothing else |
| BoardGamesSlice.BoardGames.Rejected | web_app/src/features/board_games/slice.ts:150-152 | every request's rejected handler sets the status to failed and nothing else |
| BoardGamesSlice.BoardGames.GetBoardGamesFulfilled | web_app/src/features/board_games/slice.ts:145-149 | a finished fetch sets idle and shows the whole fetched list |
| BoardGamesSlice.BoardGames.Refresh | web_app/src/features/board_games/slice.ts:175-186 | the shared refresh stores the refetched list and shows it refiltered by the stored query and sorted |
| BoardGamesSlice.BoardGames.SaveFulfilled | web_app/src/features/board_games/slice.ts:169-187 | a finished add or edit sets idle, closes the modal, clears the record and shows the refetched list refiltered and sorted; the edit handler at lines 208-226 is the same |
| BoardGamesSlice.BoardGames.DeleteFulfilled | web_app/src/features/board_games/slice.ts:244-260 | a finished delete sets idle and shows the refetched list refiltered and sorted; the modal and the edited record stay |
| Flow.FlowSlice.constructor | web_app/src/features/flow/slice.ts:12-14 | the flow starts in `GET_BOARD_GAMES` |
| Flow.FlowSlice.UpdateFlowState | web_app/src/features/flow/slice.ts:21-25 | `updateFlowState(s)` sets the flow state to `s` |
| Flow.CheckStep | web_app/src/features/flow/slice.ts:36-43 | whether `checkBoardGames` fetches, and the next flow state: a fetch and `READY` from `GET_BOARD_GAMES`, nothing otherwise |
| Flow.CheckBoardGames | web_app/src/features/flow/slice.ts:36-43 | from `GET_BOARD_GAMES` it starts the fetch, marking the list loading and changing no other field of the list state, and moves to `READY`; in any other state it changes nothing |
| Flow.AtMostOneFetch | web_app/src/features/flow/slice.ts:36-43 | any number of calls starts the fetch exactly once from `GET_BOARD_GAMES`, and never from `READY` |

## Left out

- The network and the runtime are left out. Specifically: the `axios.get` fetch in `populate`, `response.status/send`, `console.log` and `initializeApp`. The fetched list is a parameter of `PopulateBoardGames`, and a failed fetch is `None`.
- The get handler's 500 path (`database.ts:74-81`) is left out. It only happens when the store is unreachable, and this model has no unreachable store.
- `Promise.all` runs its writes in parallel. The model makes them one after another.
  - In `delete`, every update of a pass is still made after an earlier one fails, since `Promise.all` has issued them all. The ghost orders that `DeleteBoardGame` returns name the order the updates were made in. When two results of one pass redirect to the same document, the last update in that order wins, where parallel updates may land in either order.
  - In `populate`, records that share an `id` are written in list order, so the last one wins (`WriteAll`, `WriteAllStores`), where parallel writes may land in another order.
- Firestore hands out random document ids. `Firestore.FreshKey` is deterministic instead: it gives a key longer than every present key.
- `Database.GetBoardGames`: the order in which Firestore lists documents is not modelled. The contract fixes the content, not the order.
- Firestore.ValidKey: refuses every key that contains `/`. Firestore accepts a key of an odd number of non-empty segments, such as `a/b/c`, as the path of a document in a subcollection, so `set` and `delete` there succeed: a put with id `a/b/c` answers 204 in the code and 500 in the model. Such documents lie outside `board_games`, and subcollections are not modelled.
- Firestore.ValidKey: the other rules for document ids, such as a size limit and the reserved `.` and `..`, are not modelled.
- Database.DeleteRemovesStringRefs: stated for stores in which every stored `id` matches its key (`StoredIdsMatch`), which every handler keeps. In other stores the updates are redirected, as `DeleteFollowsStoredId` shows.
- Database.DeleteKeepsForwardLinks: stated for stores in which every stored `id` matches its key, as for `DeleteRemovesStringRefs`.
- In a JSON request body, `delete`'s `id` is taken to be a string or absent. Other JSON values in that place are not modelled.
- `Intl.Collator` with its locale tables is an abstract comparator `collate`. The properties of the collator that are used are stated as `Sorting.Consistent`.
- `JsValues.LowerCase`: only ASCII letters are lowercased. Full Unicode case mapping is not modelled.
- Numbers are integers. JavaScript's floating-point numbers and their string forms are not modelled.
- `new Date().getFullYear()` is a parameter `year`.
- The request bodies from `api/board_games/index.ts` arrive as `Option<Doc>`. `None` means the destructuring throws.
- The Redux Toolkit and Immer machinery is left out. Each reducer and handler is a method on the state, with its payload as a parameter. A reducer that throws leaves the state as it was.
- The async half of `checkBoardGames`'s dispatch is a separate method. `Flow.CheckBoardGames` covers only the synchronous `pending` step; the later fulfilled or rejected handler is `GetBoardGamesFulfilled` or `Rejected`.
- The plain-read selectors (`selectStatus`, `selectBoardGames`, …) are left out. They return a state field as it is.
- `flow/enums.ts` is not part of this model. `Flow.AppFlowState` has the two members the flow slice uses.
- `enums.ts` and `interfaces.ts` are data types: they are used as datatypes and string constants and have no behaviour.
- The UI files are left out: `Table.tsx`, `Modal.tsx`, `Header.tsx`, `App.tsx` and `firebase.config.ts`. `NoBaseGame` is the `"-1"` that the add form sends for no base game (`Modal.tsx:212`).
- `Database.Linked` checks `id` links only. The `name` stored in `{ id, name }` is not compared with the expansion's current name.

## Findings

| source | as written | input that shows it | evidently intended | confidence | as-written member | corrected member |
|---|---|---|---|---|---|---|
| functions/src/database.ts:173-186 | the delete repair queries and filters `expansions` for the bare string `id`, but add (line 111) and populate (lines 30-35) store `{ id, name }` objects there | a base game `B` with `expansions: [{ id: "E", name: "Exp" }]` and the expansion `E` with `baseGame: "B"`; deleting `E` leaves `B` listing `E` | every entry that refers to the deleted record is removed, so the store stays linked | not executed | Database.DeleteLeavesStaleEntry | Database.DeleteRepairedKeepsLinks |
| web_app/src/features/board_games/slice.ts:179 | after add, edit or delete (also lines 218 and 252), the list is refiltered with the stored query not lowercased, while `filterBoardGames` (line 131) lowercases it | stored query `Cat` and the refetched list `[{ name: "Catan" }]`: `filterBoardGames` shows `Catan`, the refresh shows nothing | the refresh shows what `filterBoardGames` shows for the same query | not executed | BoardGamesSlice.RefilterDropsCapitalisedMatch | BoardGamesSlice.RefilterLowercasedIsTypedFilter |

The handler and slice methods model the code as written: `Database.DeleteSpec`, `BoardGamesSlice.Refilter`. The corrected definitions are `Database.DeleteRepairedSpec` and `BoardGamesSlice.RefilterLowercased`. The corrected delete updates each result under its own key; on stores where every stored `id` matches its key, the code as written does the same (`DeleteByKey`). Lemmas about the corrected definitions show what the evident intent guarantees.
