/**
  The catalog's HTTP handlers (`post`, `put`, `delete`, `get`, `populate`)
  as operations on the `board_games` collection, and the cross-reference
  between an expansion's `baseGame` and its base game's `expansions` list
  that the add and delete handlers maintain.

  Each handler is a method that performs the source's writes one by one
  on a `Collection`; its contract ties the response and the final store to
  a function of the request and the old store (`AddSpec`, `EditSpec`,
  `DeleteSpec`, `PopulateSpec`), and the lemmas below are about those
  functions.
*/
module Database {
  import opened Wrappers
  import opened JsValues
  import opened Firestore

  /** What a handler sends back. */
  datatype Response =
    | NoContent                      // 204
    | Games(games: seq<Doc>)         // 200 with `{ board_games }`
    | Message(message: string)       // 200 with `{ message }`
    | BadRequest(message: string)    // 400
    | InternalError(message: string) // 500

  /** The response together with the store a handler leaves behind. */
  datatype Outcome = Outcome(response: Response, docs: map<string, Doc>)

  /** The HTTP status code of a response. */
  function Status(r: Response): int
  {
    match r
    case NoContent => 204
    case Games(_) => 200
    case Message(_) => 200
    case BadRequest(_) => 400
    case InternalError(_) => 500
  }

  const NeedsPost := "Bad Request. Needs to be a POST."
  const NeedsPut := "Bad Request. Needs to be a PUT."
  const NeedsDelete := "Bad Request. Needs to be a DELETE."
  const AddFailed := "Internal error adding data to the database."
  const DeleteFailed := "Internal error deleting data from the database."
  const PopulateFailed := "Internal error fetching data from external provider."
  const Populated := "Database populated successfully."

  // ---------------------------------------------------------------------------
  // Links between expansions and base games

  /** The base game a record points at: a `baseGame` string other than the `"-1"` of "no base game". */
  function BaseOf(d: Doc): Option<string>
  {
    match Get(d, "baseGame")
    case Some(Str(b)) => if b != "-1" then Some(b) else None
    case _ => None
  }

  /** The entries of a record's `expansions` array; none when the field is missing or not an array. */
  function ExpansionsOf(d: Doc): seq<Value>
  {
    if "expansions" in d && d["expansions"].Arr? then d["expansions"].elems else []
  }

  /** The record an `expansions` entry refers to: the string `id` of an `{ id, name }` object. */
  function RefKey(e: Value): Option<string>
  {
    if e.Obj? && "id" in e.fields && e.fields["id"].Str? then Some(e.fields["id"].s) else None
  }

  /** The number of entries of `xs` that refer to `k`. */
  function RefCount(xs: seq<Value>, k: string): nat
  {
    if xs == [] then 0
    else (if RefKey(xs[0]) == Some(k) then 1 else 0) + RefCount(xs[1..], k)
  }

  /** Every record that points at a base game is listed exactly once among that base game's expansions. */
  predicate ForwardLinked(docs: map<string, Doc>)
  {
    forall k :: k in docs && BaseOf(docs[k]).Some? ==>
      BaseOf(docs[k]).value in docs && RefCount(ExpansionsOf(docs[BaseOf(docs[k]).value]), k) == 1
  }

  /** Every entry of a record's `expansions` refers to a stored record that points back at it. */
  predicate BackLinked(docs: map<string, Doc>)
  {
    forall b, e :: b in docs && e in ExpansionsOf(docs[b]) ==>
      RefKey(e).Some? && RefKey(e).value in docs && BaseOf(docs[RefKey(e).value]) == Some(b)
  }

  /** The two-way consistency of `baseGame` and `expansions` across the collection. */
  predicate Linked(docs: map<string, Doc>)
  {
    ForwardLinked(docs) && BackLinked(docs)
  }

  lemma {:induction false} RefCountAppend(a: seq<Value>, b: seq<Value>, k: string)
    ensures RefCount(a + b, k) == RefCount(a, k) + RefCount(b, k)
  {
    if a == [] {
      assert a + b == b;
    } else {
      assert (a + b)[0] == a[0];
      assert (a + b)[1..] == a[1..] + b;
      RefCountAppend(a[1..], b, k);
    }
  }

  lemma {:induction false} RefCountZero(xs: seq<Value>, k: string)
    requires forall e :: e in xs ==> RefKey(e) != Some(k)
    ensures RefCount(xs, k) == 0
  {
    if xs != [] {
      assert xs[0] in xs;
      assert forall e :: e in xs[1..] ==> e in xs;
      RefCountZero(xs[1..], k);
    }
  }

  // ---------------------------------------------------------------------------
  // post: addBoardGame

  /**
    The outcome of `post` with record `bg` when the store hands out `key`:
    the record is stored under `key` with `id` set to it, and, unless its
    `baseGame` is `"-1"`, `{ id: key, name }` is array-unioned into the base
    game's `expansions`. A `baseGame` that is not a usable key, a base game
    that does not exist or a missing `name` fail with 500 after the record
    was stored: nothing is rolled back.
  */
  function AddSpec(docs: map<string, Doc>, key: string, bg: Doc): Outcome
  {
    var stored := bg["id" := Str(key)];
    var added := docs[key := stored];
    match Get(bg, "baseGame")
    case Some(Str(b)) =>
      if b == "-1" then Outcome(NoContent, added)
      else if ValidKey(b) && b in added && "name" in bg then
        var base := added[b];
        var ref := ExpansionRef(Str(key), bg["name"]);
        Outcome(NoContent, added[b := base["expansions" := ArrayUnion(Get(base, "expansions"), ref)]])
      else Outcome(InternalError(AddFailed), added)
    case _ => Outcome(InternalError(AddFailed), added)
  }

  /** `post`: rejects other methods, then performs the add, the `id` update and the base-game union in turn. */
  method AddBoardGame(db: Collection, httpMethod: string, body: Option<Doc>) returns (resp: Response, ghost key: string)
    requires db.Valid()
    modifies db
    ensures db.Valid()
    ensures httpMethod != "POST" ==> resp == BadRequest(NeedsPost) && db.docs == old(db.docs)
    ensures httpMethod == "POST" && body.None? ==> resp == InternalError(AddFailed) && db.docs == old(db.docs)
    ensures httpMethod == "POST" && body.Some? ==>
      key !in old(db.docs) && ValidKey(key) && Outcome(resp, db.docs) == AddSpec(old(db.docs), key, body.value)
  {
    key := "";
    if httpMethod != "POST" {
      return BadRequest(NeedsPost), key;
    }
    if body.None? {
      return InternalError(AddFailed), key;
    }
    var bg := body.value;
    ghost var before := db.docs;
    var k := db.Add(bg);
    key := k;
    var ok := db.Update(k, "id", Assign(Str(k)));
    assert ok;
    ghost var added := before[k := bg["id" := Str(k)]];
    assert db.docs == added;
    var base := Get(bg, "baseGame");
    if base == Some(Str("-1")) {
      return NoContent, key;
    }
    if !base.Some? || !base.value.Str? || !("name" in bg) {
      return InternalError(AddFailed), key;
    }
    ok := db.Update(base.value.s, "expansions", Union(ExpansionRef(Str(k), bg["name"])));
    resp := if ok then NoContent else InternalError(AddFailed);
  }

  /** A record that lists no expansions of its own. */
  predicate NoOwnExpansions(bg: Doc)
  {
    ExpansionsOf(bg) == []
  }

  /** Writing the `baseGame`-independent fields of the new record or of a base game does not move any link. */
  lemma BaseOfIgnoresOtherFields(d: Doc, field: string, v: Value)
    requires field != "baseGame"
    ensures BaseOf(d[field := v]) == BaseOf(d)
  {
    assert Get(d[field := v], "baseGame") == Get(d, "baseGame");
  }

  /** A successful `post` of a record without expansions keeps the store linked, and the new record is listed once in its base game. */
  lemma AddKeepsLinks(docs: map<string, Doc>, key: string, bg: Doc)
    requires Linked(docs)
    requires key !in docs
    requires NoOwnExpansions(bg)
    requires AddSpec(docs, key, bg).response == NoContent
    ensures Linked(AddSpec(docs, key, bg).docs)
    ensures BaseOf(bg).Some? ==> RefCount(ExpansionsOf(AddSpec(docs, key, bg).docs[BaseOf(bg).value]), key) == 1
  {
    var stored := bg["id" := Str(key)];
    var added := docs[key := stored];
    BaseOfIgnoresOtherFields(bg, "id", Str(key));
    assert ExpansionsOf(stored) == [];
    if Get(bg, "baseGame") == Some(Str("-1")) {
      assert AddSpec(docs, key, bg).docs == added;
      AddedRecordWithoutLinkKeepsLinks(docs, key, stored);
    } else {
      var b := Get(bg, "baseGame").value.s;
      var base := added[b];
      var ref := ExpansionRef(Str(key), bg["name"]);
      var result := added[b := base["expansions" := ArrayUnion(Get(base, "expansions"), ref)]];
      assert AddSpec(docs, key, bg).docs == result;
      assert BaseOf(stored) == Some(b);
      AddedLinkKeepsLinks(docs, key, stored, b, ref);
    }
  }

  /** Storing a record that points nowhere and lists nothing under a new key keeps the store linked. */
  lemma AddedRecordWithoutLinkKeepsLinks(docs: map<string, Doc>, key: string, stored: Doc)
    requires Linked(docs)
    requires key !in docs
    requires ExpansionsOf(stored) == [] && BaseOf(stored).None?
    ensures Linked(docs[key := stored])
  {
    var added := docs[key := stored];
    forall k | k in added && BaseOf(added[k]).Some?
      ensures BaseOf(added[k]).value in added && RefCount(ExpansionsOf(added[BaseOf(added[k]).value]), k) == 1
    {
      assert k in docs && BaseOf(docs[k]).value in docs;
    }
    forall b, e | b in added && e in ExpansionsOf(added[b])
      ensures RefKey(e).Some? && RefKey(e).value in added && BaseOf(added[RefKey(e).value]) == Some(b)
    {
      assert b in docs && RefKey(e).value in docs;
    }
  }

  /**
    Storing under a new key a record that points at base game `b` and lists
    nothing, and array-unioning its reference into `b`, keeps the store
    linked and lists the new record once in `b`.
  */
  lemma AddedLinkKeepsLinks(docs: map<string, Doc>, key: string, stored: Doc, b: string, ref: Value)
    requires Linked(docs)
    requires key !in docs
    requires ExpansionsOf(stored) == [] && BaseOf(stored) == Some(b)
    requires b in docs || b == key
    requires RefKey(ref) == Some(key)
    ensures var added := docs[key := stored];
      var result := added[b := added[b]["expansions" := ArrayUnion(Get(added[b], "expansions"), ref)]];
      Linked(result) && RefCount(ExpansionsOf(result[b]), key) == 1
  {
    var added := docs[key := stored];
    var base := added[b];
    var result := added[b := base["expansions" := ArrayUnion(Get(base, "expansions"), ref)]];
    var prior := ExpansionsOf(base);
    // no entry of the store refers to the new key yet
    assert forall e :: e in prior ==> RefKey(e) != Some(key) by {
      if b != key {
        forall e | e in prior
          ensures RefKey(e) != Some(key)
        {
          assert e in ExpansionsOf(docs[b]);
        }
      }
    }
    assert ref !in prior;
    UnionAppends(base, ref);
    RefCountZero(prior, key);
    RefCountAppend(prior, [ref], key);
    assert RefCount([ref], key) == 1;
    assert result.Keys == docs.Keys + {key};
    assert forall k :: k in docs && k != b ==> result[k] == docs[k];
    assert BaseOf(result[key]) == Some(b);
    AddedLinkForward(docs, key, b, ref, prior, result);
    AddedLinkBack(docs, key, b, ref, prior, result);
  }

  /** The union of a new reference appends it to the entries and leaves `baseGame` alone. */
  lemma UnionAppends(d: Doc, ref: Value)
    requires ref !in ExpansionsOf(d)
    ensures var u := d["expansions" := ArrayUnion(Get(d, "expansions"), ref)];
      ExpansionsOf(u) == ExpansionsOf(d) + [ref] && BaseOf(u) == BaseOf(d)
  {
    BaseOfIgnoresOtherFields(d, "expansions", ArrayUnion(Get(d, "expansions"), ref));
  }

  /**
    The forward half of `AddedLinkKeepsLinks`, for any `result` that adds
    `key` pointing at `b` and appends `ref` to the entries of `b`.
  */
  lemma AddedLinkForward(docs: map<string, Doc>, key: string, b: string, ref: Value, prior: seq<Value>, result: map<string, Doc>)
    requires ForwardLinked(docs)
    requires key !in docs && RefKey(ref) == Some(key)
    requires result.Keys == docs.Keys + {key} && b in result
    requires forall k :: k in docs && k != b ==> result[k] == docs[k]
    requires BaseOf(result[key]) == Some(b)
    requires b != key ==> BaseOf(result[b]) == BaseOf(docs[b]) && prior == ExpansionsOf(docs[b])
    requires ExpansionsOf(result[b]) == prior + [ref] && RefCount(prior, key) == 0
    ensures ForwardLinked(result)
  {
    RefCountAppend(prior, [ref], key);
    assert RefCount([ref], key) == 1;
    forall k | k in result && BaseOf(result[k]).Some?
      ensures BaseOf(result[k]).value in result && RefCount(ExpansionsOf(result[BaseOf(result[k]).value]), k) == 1
    {
      if k != key {
        assert BaseOf(result[k]) == BaseOf(docs[k]);
        var b' := BaseOf(docs[k]).value;
        if b' == b {
          RefCountAppend(prior, [ref], k);
          assert RefCount([ref], k) == 0;
        }
      }
    }
  }

  /** The backward half of `AddedLinkKeepsLinks`, on the same terms as `AddedLinkForward`. */
  lemma AddedLinkBack(docs: map<string, Doc>, key: string, b: string, ref: Value, prior: seq<Value>, result: map<string, Doc>)
    requires BackLinked(docs)
    requires key !in docs && RefKey(ref) == Some(key)
    requires result.Keys == docs.Keys + {key} && b in result
    requires forall k :: k in docs && k != b ==> result[k] == docs[k]
    requires BaseOf(result[key]) == Some(b)
    requires b != key ==> BaseOf(result[b]) == BaseOf(docs[b]) && prior == ExpansionsOf(docs[b])
    requires b == key ==> prior == []
    requires ExpansionsOf(result[b]) == prior + [ref]
    requires key != b ==> ExpansionsOf(result[key]) == []
    ensures BackLinked(result)
  {
    forall b', e | b' in result && e in ExpansionsOf(result[b'])
      ensures RefKey(e).Some? && RefKey(e).value in result && BaseOf(result[RefKey(e).value]) == Some(b')
    {
      if b' != b || e != ref {
        assert b' != key;
        assert e in ExpansionsOf(docs[b']);
        var t := RefKey(e).value;
        assert t in docs && t != key;
        assert t != b ==> result[t] == docs[t];
      }
    }
  }

  /** A retried `post` for the same reference leaves the base game's `expansions` as one `post` did. */
  lemma RetriedUnionAddsNothing(base: Doc, ref: Value)
    ensures var once := base["expansions" := ArrayUnion(Get(base, "expansions"), ref)];
      once["expansions" := ArrayUnion(Get(once, "expansions"), ref)] == once
  {
    var once := base["expansions" := ArrayUnion(Get(base, "expansions"), ref)];
    ArrayUnionIdempotent(Get(base, "expansions"), ref);
    assert Get(once, "expansions") == Some(ArrayUnion(Get(base, "expansions"), ref));
  }

  /** When the base game is missing, `post` answers 500 and the new record stays stored: there is no rollback. */
  lemma AddWithMissingBaseKeepsRecord(docs: map<string, Doc>, key: string, bg: Doc)
    requires Get(bg, "baseGame").Some? && Get(bg, "baseGame").value.Str?
    requires Get(bg, "baseGame").value.s != "-1" && Get(bg, "baseGame").value.s != key
    requires Get(bg, "baseGame").value.s !in docs
    ensures AddSpec(docs, key, bg).response == InternalError(AddFailed)
    ensures AddSpec(docs, key, bg).docs == docs[key := bg["id" := Str(key)]]
  {
  }

  /** With `baseGame` `"-1"`, `post` changes no record but the new one, whose `id` is its key. */
  lemma AddWithoutBaseTouchesOnlyNewRecord(docs: map<string, Doc>, key: string, bg: Doc)
    requires Get(bg, "baseGame") == Some(Str("-1"))
    ensures AddSpec(docs, key, bg).response == NoContent
    ensures AddSpec(docs, key, bg).docs.Keys == docs.Keys + {key}
    ensures AddSpec(docs, key, bg).docs[key]["id"] == Str(key)
    ensures forall k :: k in docs && k != key ==> AddSpec(docs, key, bg).docs[k] == docs[k]
  {
  }

  // ---------------------------------------------------------------------------
  // put: editBoardGame

  /** The outcome of `put` with record `bg`: a wholesale `set` at `bg.id`, which creates the record if it is absent. */
  function EditSpec(docs: map<string, Doc>, body: Option<Doc>): Outcome
  {
    match body
    case None => Outcome(InternalError(AddFailed), docs)
    case Some(bg) =>
      match Get(bg, "id")
      case Some(Str(k)) =>
        if ValidKey(k) then Outcome(NoContent, docs[k := bg]) else Outcome(InternalError(AddFailed), docs)
      case _ => Outcome(InternalError(AddFailed), docs)
  }

  /** `put`: rejects other methods, then sets the whole record. */
  method EditBoardGame(db: Collection, httpMethod: string, body: Option<Doc>) returns (resp: Response)
    requires db.Valid()
    modifies db
    ensures db.Valid()
    ensures httpMethod != "PUT" ==> resp == BadRequest(NeedsPut) && db.docs == old(db.docs)
    ensures httpMethod == "PUT" ==> Outcome(resp, db.docs) == EditSpec(old(db.docs), body)
  {
    if httpMethod != "PUT" {
      return BadRequest(NeedsPut);
    }
    if body.None? {
      return InternalError(AddFailed);
    }
    var bg := body.value;
    var id := Get(bg, "id");
    if !id.Some? || !id.value.Str? {
      return InternalError(AddFailed);
    }
    var ok := db.Set(id.value.s, bg);
    resp := if ok then NoContent else InternalError(AddFailed);
  }

  /** `put` replaces the record at its `id`, creating it if absent, and leaves every other record alone. */
  lemma EditReplacesOnlyItsRecord(docs: map<string, Doc>, bg: Doc)
    requires EditSpec(docs, Some(bg)).response == NoContent
    ensures Get(bg, "id").Some? && Get(bg, "id").value.Str?
    ensures var k := bg["id"].s;
      var result := EditSpec(docs, Some(bg)).docs;
      result.Keys == docs.Keys + {k} && result[k] == bg &&
      forall k' :: k' in docs && k' != k ==> result[k'] == docs[k']
  {
  }

  /** `put` repairs no links: moving an expansion off its base game leaves a stale entry behind. */
  lemma EditCanBreakLinks()
    ensures var docs := LinkedPair();
      var moved := map["id" := Str("E"), "baseGame" := Str("-1")];
      Linked(docs) && EditSpec(docs, Some(moved)).response == NoContent &&
      !Linked(EditSpec(docs, Some(moved)).docs)
  {
    var docs := LinkedPair();
    LinkedPairIsLinked();
    var moved := map["id" := Str("E"), "baseGame" := Str("-1")];
    var result := EditSpec(docs, Some(moved)).docs;
    assert result["B"] == docs["B"];
    var ref := ExpansionRef(Str("E"), Str("Exp"));
    assert ref in ExpansionsOf(result["B"]);
    assert RefKey(ref) == Some("E");
    assert BaseOf(result["E"]) == None;
  }

  /** A base game `B` listing one expansion `E` that points back at it. */
  function LinkedPair(): map<string, Doc>
  {
    map[
      "B" := map["id" := Str("B"), "expansions" := Arr([ExpansionRef(Str("E"), Str("Exp"))])],
      "E" := map["id" := Str("E"), "baseGame" := Str("B")]
    ]
  }

  lemma LinkedPairIsLinked()
    ensures Linked(LinkedPair())
  {
    var docs := LinkedPair();
    var ref := ExpansionRef(Str("E"), Str("Exp"));
    assert RefKey(ref) == Some("E");
    assert ExpansionsOf(docs["B"]) == [ref];
    assert ExpansionsOf(docs["E"]) == [];
    assert RefCount([ref], "E") == 1;
    assert BaseOf(docs["E"]) == Some("B");
    assert BaseOf(docs["B"]) == None;
    assert docs.Keys == {"B", "E"};
  }

  // ---------------------------------------------------------------------------
  // delete: deleteBoardGame

  /** `xs` without the elements equal to `x` (`filter(e => e !== id)` with a string `id`). */
  function RemoveValue(xs: seq<Value>, x: Value): (r: seq<Value>)
    ensures x !in r
    ensures forall e :: e != x ==> multiset(r)[e] == multiset(xs)[e]
  {
    if xs == [] then []
    else
      var rest := RemoveValue(xs[1..], x);
      assert xs == [xs[0]] + xs[1..];
      if xs[0] == x then rest else [xs[0]] + rest
  }

  /** The record once its `expansions` array no longer holds `target`. */
  function Stripped(d: Doc, target: Value): Doc
    requires "expansions" in d && d["expansions"].Arr?
  {
    d["expansions" := Arr(RemoveValue(d["expansions"].elems, target))]
  }

  /** The first repair pass: every record whose `expansions` contains `target` gets those elements removed. */
  function StripPass(docs: map<string, Doc>, target: Value): map<string, Doc>
  {
    map k | k in docs :: if k in WhereArrayContains(docs, "expansions", target) then Stripped(docs[k], target) else docs[k]
  }

  /** The second repair pass: every record whose `baseGame` equals `target` gets `baseGame` set to `null`. */
  function ClearBasePass(docs: map<string, Doc>, target: Value): map<string, Doc>
  {
    map k | k in docs :: if k in WhereEqual(docs, "baseGame", target) then docs[k]["baseGame" := Null] else docs[k]
  }

  /** A repair update of `delete`: the first pass filters `expansions`, the second clears `baseGame`. */
  datatype Repair = StripValue(target: Value) | NullBase

  /** The field a repair update writes. */
  function RepairField(r: Repair): (f: string)
    ensures f != "id"
  {
    match r
    case StripValue(_) => "expansions"
    case NullBase => "baseGame"
  }

  /**
    The value a repair update writes for the query result `game`:
    `game.expansions?.filter(e => e !== id) || []`, or `null`.
  */
  function RepairValue(r: Repair, game: Doc): Value
  {
    match r
    case StripValue(t) => Arr(RemoveValue(ExpansionsOf(game), t))
    case NullBase => Null
  }

  /** A query result as the handler reads it, `{ id: d.id, ...d.data() }`: a stored `id` field overrides the key. */
  function QueryResult(k: string, d: Doc): (game: Doc)
    ensures Get(game, "id") == if "id" in d then Some(d["id"]) else Some(Str(k))
    ensures forall f :: f != "id" ==> Get(game, f) == Get(d, f)
  {
    map["id" := Str(k)] + d
  }

  /** The results of a query listed in `order`, read from `docs`; a key with no document gives none. */
  function Results(docs: map<string, Doc>, order: seq<string>): seq<Doc>
  {
    if order == [] then []
    else
      var k := order[|order| - 1];
      Results(docs, order[..|order| - 1]) + (if k in docs then [QueryResult(k, docs[k])] else [])
  }

  /** `order` lists every key of `keys` exactly once. */
  ghost predicate Enumerates(order: seq<string>, keys: set<string>)
  {
    && (forall i, j :: 0 <= i < j < |order| ==> order[i] != order[j])
    && (forall k :: k in order <==> k in keys)
  }

  /**
    One repair pass, `doc(game.id).update({ [field]: value })` for each query
    result `game` in turn, and whether every update succeeded. An update
    whose `game.id` is not a string naming a stored document under a usable
    key fails and writes nothing; the later ones are still made, since
    `Promise.all` has issued every update before it reports the failure.
  */
  function RepairWrites(docs: map<string, Doc>, games: seq<Doc>, r: Repair): (bool, map<string, Doc>)
  {
    if games == [] then (true, docs)
    else
      var game := games[|games| - 1];
      var (ok, before) := RepairWrites(docs, games[..|games| - 1], r);
      match Get(game, "id")
      case Some(Str(t)) =>
        if ValidKey(t) && t in before
        then (ok, before[t := ApplyUpdate(before[t], RepairField(r), Assign(RepairValue(r, game)))])
        else (false, before)
      case _ => (false, before)
  }

  /**
    The outcome of `delete` with body id `id` (`None` when the body has
    none), when the two queries list their results in `stripOrder` and
    `clearOrder`: the record is deleted, then the two repair passes run, the
    second only when every update of the first succeeded. Without an id the
    path is the string `"undefined"`, so that record is deleted, and the
    repair query on `undefined` then fails.
  */
  function DeleteSpec(docs: map<string, Doc>, id: Option<string>, stripOrder: seq<string>, clearOrder: seq<string>): Outcome
  {
    match id
    case None => Outcome(InternalError(DeleteFailed), docs - {"undefined"})
    case Some(s) =>
      if !ValidKey(s) then Outcome(InternalError(DeleteFailed), docs)
      else
        var deleted := docs - {s};
        var (stripped, afterStrip) := RepairWrites(deleted, Results(deleted, stripOrder), StripValue(Str(s)));
        if !stripped then Outcome(InternalError(DeleteFailed), afterStrip)
        else
          var (cleared, afterClear) := RepairWrites(afterStrip, Results(afterStrip, clearOrder), NullBase);
          Outcome(if cleared then NoContent else InternalError(DeleteFailed), afterClear)
  }

  /** `stripOrder` and `clearOrder` list exactly the results of the two queries `delete` runs, and nothing when a query is not reached. */
  ghost predicate DeleteOrdersFit(docs: map<string, Doc>, id: Option<string>, stripOrder: seq<string>, clearOrder: seq<string>)
  {
    match id
    case None => stripOrder == [] && clearOrder == []
    case Some(s) =>
      if !ValidKey(s) then stripOrder == [] && clearOrder == []
      else
        var deleted := docs - {s};
        var (stripped, afterStrip) := RepairWrites(deleted, Results(deleted, stripOrder), StripValue(Str(s)));
        && Enumerates(stripOrder, WhereArrayContains(deleted, "expansions", Str(s)))
        && (if stripped then Enumerates(clearOrder, WhereEqual(afterStrip, "baseGame", Str(s))) else clearOrder == [])
  }

  /**
    `delete`: rejects other methods, deletes the record, then runs the two
    repair passes on the results of their queries. The ghost `stripOrder`
    and `clearOrder` record the order the updates were made in.
  */
  method DeleteBoardGame(db: Collection, httpMethod: string, id: Option<string>)
    returns (resp: Response, ghost stripOrder: seq<string>, ghost clearOrder: seq<string>)
    requires db.Valid()
    modifies db
    ensures db.Valid()
    ensures httpMethod != "DELETE" ==> resp == BadRequest(NeedsDelete) && db.docs == old(db.docs)
    ensures httpMethod == "DELETE" ==>
      && DeleteOrdersFit(old(db.docs), id, stripOrder, clearOrder)
      && Outcome(resp, db.docs) == DeleteSpec(old(db.docs), id, stripOrder, clearOrder)
  {
    stripOrder, clearOrder := [], [];
    if httpMethod != "DELETE" {
      return BadRequest(NeedsDelete), stripOrder, clearOrder;
    }
    var path := if id.Some? then id.value else "undefined";
    var ok := db.Delete(path);
    if !ok || id.None? {
      return InternalError(DeleteFailed), stripOrder, clearOrder;
    }
    var target := Str(id.value);
    ok, stripOrder := StripLoop(db, target);
    if !ok {
      return InternalError(DeleteFailed), stripOrder, clearOrder;
    }
    ok, clearOrder := ClearBaseLoop(db, target);
    resp := if ok then NoContent else InternalError(DeleteFailed);
  }

  /**
    The updates of one repair pass over the query results `toUpdate`, read
    from the store as it stands: every update is issued, and `ok` says
    whether all of them succeeded. `order` is the order they were made in.
  */
  method RepairEach(db: Collection, toUpdate: set<string>, r: Repair) returns (ok: bool, ghost order: seq<string>)
    requires db.Valid()
    requires toUpdate <= db.docs.Keys
    modifies db
    ensures db.Valid()
    ensures Enumerates(order, toUpdate)
    ensures (ok, db.docs) == RepairWrites(old(db.docs), Results(old(db.docs), order), r)
  {
    var snapshot := db.docs;
    ok := true;
    order := [];
    var rest := toUpdate;
    while rest != {}
      invariant db.Valid()
      invariant rest <= toUpdate
      invariant Enumerates(order, toUpdate - rest)
      invariant (ok, db.docs) == RepairWrites(snapshot, Results(snapshot, order), r)
      decreases |rest|
    {
      var k :| k in rest;
      var game := QueryResult(k, snapshot[k]);
      ghost var games := Results(snapshot, order);
      assert (order + [k])[..|order|] == order;
      assert Results(snapshot, order + [k]) == games + [game];
      assert (games + [game])[..|games|] == games;
      var done := false;
      match Get(game, "id") {
        case Some(Str(t)) =>
          done := db.Update(t, RepairField(r), Assign(RepairValue(r, game)));
        case _ =>
      }
      ok := ok && done;
      order := order + [k];
      rest := rest - {k};
    }
  }

  /** The first repair pass: the `array-contains` query, then one `update` per result. */
  method StripLoop(db: Collection, target: Value) returns (ok: bool, ghost order: seq<string>)
    requires db.Valid()
    modifies db
    ensures db.Valid()
    ensures Enumerates(order, WhereArrayContains(old(db.docs), "expansions", target))
    ensures (ok, db.docs) == RepairWrites(old(db.docs), Results(old(db.docs), order), StripValue(target))
  {
    var toUpdate := WhereArrayContains(db.docs, "expansions", target);
    ok, order := RepairEach(db, toUpdate, StripValue(target));
  }

  /** The second repair pass: the `baseGame ==` query, then one `update` per result. */
  method ClearBaseLoop(db: Collection, target: Value) returns (ok: bool, ghost order: seq<string>)
    requires db.Valid()
    modifies db
    ensures db.Valid()
    ensures Enumerates(order, WhereEqual(old(db.docs), "baseGame", target))
    ensures (ok, db.docs) == RepairWrites(old(db.docs), Results(old(db.docs), order), NullBase)
  {
    var toUpdate := WhereEqual(db.docs, "baseGame", target);
    ok, order := RepairEach(db, toUpdate, NullBase);
  }

  /** Every stored record sits under a usable key and either has no `id` field or has its own key there. */
  predicate StoredIdsMatch(docs: map<string, Doc>)
  {
    forall k :: k in docs ==> ValidKey(k) && ("id" in docs[k] ==> docs[k]["id"] == Str(k))
  }

  /** The store after a repair pass that updates each record of `keys` under its own key. */
  function RepairByKey(docs: map<string, Doc>, keys: set<string>, r: Repair): map<string, Doc>
  {
    map k | k in docs :: if k in keys then docs[k][RepairField(r) := RepairValue(r, docs[k])] else docs[k]
  }

  /** A repair update computes the same value from a query result as from the stored record. */
  lemma RepairValueOfResult(r: Repair, k: string, d: Doc)
    ensures RepairValue(r, QueryResult(k, d)) == RepairValue(r, d)
  {
    assert Get(QueryResult(k, d), "expansions") == Get(d, "expansions");
  }

  /**
    When every stored `id` matches its key, a repair pass over an
    enumeration of `keys` succeeds and updates exactly those records, each
    under its own key, whatever the order of the updates.
  */
  lemma {:induction false} RepairWritesByKey(docs: map<string, Doc>, order: seq<string>, keys: set<string>, r: Repair)
    requires StoredIdsMatch(docs)
    requires Enumerates(order, keys) && keys <= docs.Keys
    ensures RepairWrites(docs, Results(docs, order), r) == (true, RepairByKey(docs, keys, r))
  {
    if order == [] {
      assert forall x :: x !in keys;
      assert RepairByKey(docs, keys, r) == docs;
    } else {
      var n := |order|;
      var k := order[n - 1];
      var front := order[..n - 1];
      var rest := keys - {k};
      EnumeratesFront(order, keys);
      RepairWritesByKey(docs, front, rest, r);
      var games := Results(docs, front);
      var game := QueryResult(k, docs[k]);
      assert Results(docs, order) == games + [game];
      assert (games + [game])[..|games|] == games;
      RepairValueOfResult(r, k, docs[k]);
      assert Get(game, "id") == Some(Str(k));
      RepairByKeyStep(docs, rest, k, r);
      assert keys == rest + {k};
      var before := RepairByKey(docs, rest, r);
      assert k in before;
      assert RepairWrites(docs, games + [game], r)
        == (true, before[k := ApplyUpdate(before[k], RepairField(r), Assign(RepairValue(r, game)))]);
    }
  }

  /** Dropping the last key of an enumeration enumerates the other keys. */
  lemma EnumeratesFront(order: seq<string>, keys: set<string>)
    requires Enumerates(order, keys) && order != []
    ensures Enumerates(order[..|order| - 1], keys - {order[|order| - 1]})
  {
    var n := |order|;
    var front := order[..n - 1];
    forall x ensures x in front <==> x in keys - {order[n - 1]} {
      if x in front {
        var i :| 0 <= i < n - 1 && front[i] == x;
        assert order[i] == x;
      }
      if x in keys - {order[n - 1]} {
        assert x in order;
        var i :| 0 <= i < n && order[i] == x;
        assert front[i] == x;
      }
    }
  }

  /** Adding one more key to a repair pass by key updates that record alone. */
  lemma RepairByKeyStep(docs: map<string, Doc>, rest: set<string>, k: string, r: Repair)
    requires k in docs && k !in rest
    ensures var before := RepairByKey(docs, rest, r);
      before[k := ApplyUpdate(before[k], RepairField(r), Assign(RepairValue(r, docs[k])))] == RepairByKey(docs, rest + {k}, r)
  {
    var before := RepairByKey(docs, rest, r);
    assert before[k] == docs[k];
  }

  /** A repair pass by key is the first pass of `StripPass` or the second of `ClearBasePass`. */
  lemma PassesByKey(docs: map<string, Doc>, target: Value)
    ensures RepairByKey(docs, WhereArrayContains(docs, "expansions", target), StripValue(target)) == StripPass(docs, target)
    ensures RepairByKey(docs, WhereEqual(docs, "baseGame", target), NullBase) == ClearBasePass(docs, target)
  {
  }

  /** A repair pass by key leaves every `id` field and every key as it was. */
  lemma RepairByKeyKeepsIds(docs: map<string, Doc>, keys: set<string>, r: Repair)
    requires StoredIdsMatch(docs)
    ensures StoredIdsMatch(RepairByKey(docs, keys, r))
  {
    var f := RepairField(r);
    forall k | k in docs ensures Get(RepairByKey(docs, keys, r)[k], "id") == Get(docs[k], "id") {
      assert f != "id";
    }
  }

  /**
    When every stored `id` matches its key, a `delete` of a usable key
    answers 204 and leaves the two passes made key by key, in whatever order
    the queries list their results.
  */
  lemma DeleteByKey(docs: map<string, Doc>, s: string, stripOrder: seq<string>, clearOrder: seq<string>)
    requires StoredIdsMatch(docs) && ValidKey(s)
    requires DeleteOrdersFit(docs, Some(s), stripOrder, clearOrder)
    ensures DeleteSpec(docs, Some(s), stripOrder, clearOrder) == Outcome(NoContent, ClearBasePass(StripPass(docs - {s}, Str(s)), Str(s)))
  {
    var deleted := docs - {s};
    var target := Str(s);
    var strip := WhereArrayContains(deleted, "expansions", target);
    RepairWritesByKey(deleted, stripOrder, strip, StripValue(target));
    PassesByKey(deleted, target);
    RepairByKeyKeepsIds(deleted, strip, StripValue(target));
    var afterStrip := StripPass(deleted, target);
    RepairWritesByKey(afterStrip, clearOrder, WhereEqual(afterStrip, "baseGame", target), NullBase);
    PassesByKey(afterStrip, target);
  }

  /**
    A stored `id` that differs from its key redirects the update: with
    `K` holding `id: "X"` and listing `"s"`, deleting `"s"` sends the
    update of `K` to the missing `X`, which fails, so the answer is 500 and
    `K` keeps listing `"s"`.
  */
  lemma DeleteFollowsStoredId()
    ensures var docs := map["s" := map[], "K" := map["id" := Str("X"), "expansions" := Arr([Str("s")])]];
      && !StoredIdsMatch(docs)
      && DeleteOrdersFit(docs, Some("s"), ["K"], [])
      && DeleteSpec(docs, Some("s"), ["K"], []) == Outcome(InternalError(DeleteFailed), docs - {"s"})
  {
    var docs := map["s" := map[], "K" := map["id" := Str("X"), "expansions" := Arr([Str("s")])]];
    var deleted := docs - {"s"};
    var r := StripValue(Str("s"));
    assert deleted == map["K" := docs["K"]];
    assert ExpansionsOf(deleted["K"]) == [Str("s")];
    assert WhereArrayContains(deleted, "expansions", Str("s")) == {"K"};
    assert Enumerates(["K"], {"K"});
    var game := QueryResult("K", deleted["K"]);
    assert ["K"][..0] == [];
    assert Results(deleted, ["K"]) == [game];
    assert [game][..0] == [];
    assert RepairWrites(deleted, [], r) == (true, deleted);
    assert Get(game, "id") == Some(Str("X"));
    assert RepairWrites(deleted, [game], r) == (false, deleted);
  }

  /** Every handler keeps each stored `id` equal to its key: `delete` writes neither an `id` nor a new key. */
  lemma {:induction false} RepairWritesKeepsIds(docs: map<string, Doc>, games: seq<Doc>, r: Repair)
    requires StoredIdsMatch(docs)
    ensures StoredIdsMatch(RepairWrites(docs, games, r).1)
  {
    if games != [] {
      RepairWritesKeepsIds(docs, games[..|games| - 1], r);
      var f := RepairField(r);
      assert f != "id";
    }
  }

  /** `delete` keeps each stored `id` equal to its key, whatever the order of its updates. */
  lemma DeleteKeepsStoredIds(docs: map<string, Doc>, id: Option<string>, stripOrder: seq<string>, clearOrder: seq<string>)
    requires StoredIdsMatch(docs)
    ensures StoredIdsMatch(DeleteSpec(docs, id, stripOrder, clearOrder).docs)
  {
    if id.Some? && ValidKey(id.value) {
      var s := id.value;
      var deleted := docs - {s};
      var games := Results(deleted, stripOrder);
      RepairWritesKeepsIds(deleted, games, StripValue(Str(s)));
      var afterStrip := RepairWrites(deleted, games, StripValue(Str(s))).1;
      RepairWritesKeepsIds(afterStrip, Results(afterStrip, clearOrder), NullBase);
    }
  }

  /** Removing a string never removes an `{ id, name }` reference. */
  lemma {:induction false} RemoveValueKeepsRefs(xs: seq<Value>, s: string, k: string)
    ensures RefCount(RemoveValue(xs, Str(s)), k) == RefCount(xs, k)
  {
    if xs != [] {
      RemoveValueKeepsRefs(xs[1..], s, k);
      if xs[0] != Str(s) {
        RefCountAppend([xs[0]], RemoveValue(xs[1..], Str(s)), k);
      }
    }
  }

  /**
    When every stored `id` matches its key, a `delete` of a usable key
    removes the record `s`; it removes from every `expansions` array exactly
    the elements equal to the string `s`, keeping every other element
    (`{ id, name }` objects included) as often as before; it sets `baseGame`
    to `null` where it was `s`; every other field of every other record
    stays.
  */
  lemma DeleteRemovesStringRefs(docs: map<string, Doc>, s: string, stripOrder: seq<string>, clearOrder: seq<string>)
    requires StoredIdsMatch(docs) && ValidKey(s)
    requires DeleteOrdersFit(docs, Some(s), stripOrder, clearOrder)
    ensures var r := DeleteSpec(docs, Some(s), stripOrder, clearOrder);
      r.response == NoContent && r.docs.Keys == docs.Keys - {s}
    ensures var r := DeleteSpec(docs, Some(s), stripOrder, clearOrder).docs;
      forall k :: k in r ==>
        && Str(s) !in ExpansionsOf(r[k])
        && (forall e :: e != Str(s) ==> multiset(ExpansionsOf(r[k]))[e] == multiset(ExpansionsOf(docs[k]))[e])
        && Get(r[k], "baseGame") == (if Get(docs[k], "baseGame") == Some(Str(s)) then Some(Null) else Get(docs[k], "baseGame"))
        && (forall f :: f != "expansions" && f != "baseGame" ==> Get(r[k], f) == Get(docs[k], f))
  {
    DeleteByKey(docs, s, stripOrder, clearOrder);
    var target := Str(s);
    var stripped := StripPass(docs - {s}, target);
    var r := ClearBasePass(stripped, target);
    forall k | k in r
      ensures Str(s) !in ExpansionsOf(r[k])
      ensures forall e :: e != Str(s) ==> multiset(ExpansionsOf(r[k]))[e] == multiset(ExpansionsOf(docs[k]))[e]
    {
      assert ExpansionsOf(r[k]) == ExpansionsOf(stripped[k]);
    }
  }

  /** When every stored `id` matches its key, a `delete` keeps every pointer from an expansion to its base game listed once there. */
  lemma DeleteKeepsForwardLinks(docs: map<string, Doc>, s: string, stripOrder: seq<string>, clearOrder: seq<string>)
    requires ForwardLinked(docs)
    requires StoredIdsMatch(docs) && ValidKey(s)
    requires DeleteOrdersFit(docs, Some(s), stripOrder, clearOrder)
    ensures ForwardLinked(DeleteSpec(docs, Some(s), stripOrder, clearOrder).docs)
  {
    DeleteByKey(docs, s, stripOrder, clearOrder);
    var target := Str(s);
    var stripped := StripPass(docs - {s}, target);
    var r := ClearBasePass(stripped, target);
    forall k | k in r && BaseOf(r[k]).Some?
      ensures BaseOf(r[k]).value in r && RefCount(ExpansionsOf(r[BaseOf(r[k]).value]), k) == 1
    {
      var b := BaseOf(r[k]).value;
      assert Get(r[k], "baseGame") == Get(docs[k], "baseGame");
      assert b != s && b in docs && RefCount(ExpansionsOf(docs[b]), k) == 1;
      assert ExpansionsOf(r[b]) == ExpansionsOf(stripped[b]);
      if b in WhereArrayContains(docs - {s}, "expansions", target) {
        RemoveValueKeepsRefs(ExpansionsOf(docs[b]), s, k);
      }
    }
  }

  /**
    `delete` as written leaves `{ id, name }` entries behind: deleting the
    expansion `E` of `LinkedPair()` finds no query results (the entry of `B`
    is an object, not the string `"E"`), so `B` keeps listing `E`, which no
    longer exists.
  */
  lemma DeleteLeavesStaleEntry()
    ensures Linked(LinkedPair()) && StoredIdsMatch(LinkedPair())
    ensures DeleteOrdersFit(LinkedPair(), Some("E"), [], [])
    ensures var r := DeleteSpec(LinkedPair(), Some("E"), [], []);
      && r.response == NoContent
      && "E" !in r.docs && "B" in r.docs && ExpansionRef(Str("E"), Str("Exp")) in ExpansionsOf(r.docs["B"]) && !BackLinked(r.docs)
  {
    LinkedPairIsLinked();
    LinkedPairQueriesFindNothing();
    var ref := ExpansionRef(Str("E"), Str("Exp"));
    assert RefKey(ref) == Some("E");
  }

  /** Once `E` is deleted from `LinkedPair()`, neither repair query finds `B`: its entry is an object and it has no `baseGame`. */
  lemma LinkedPairQueriesFindNothing()
    ensures var deleted := LinkedPair() - {"E"};
      && deleted == map["B" := LinkedPair()["B"]]
      && WhereArrayContains(deleted, "expansions", Str("E")) == {}
      && WhereEqual(deleted, "baseGame", Str("E")) == {}
  {
    var docs := LinkedPair();
    var deleted := docs - {"E"};
    assert deleted == map["B" := docs["B"]];
    assert ExpansionsOf(docs["B"]) == [ExpansionRef(Str("E"), Str("Exp"))];
  }

  /** Whether an `expansions` element refers to `s`, as a bare string or as an `{ id, name }` object. */
  predicate RefersTo(e: Value, s: string)
  {
    e == Str(s) || RefKey(e) == Some(s)
  }

  /** `xs` without the elements that refer to `s`. */
  function RemoveRefs(xs: seq<Value>, s: string): (r: seq<Value>)
    ensures forall e :: e in r ==> e in xs && !RefersTo(e, s)
    ensures forall k :: k != s ==> RefCount(r, k) == RefCount(xs, k)
  {
    if xs == [] then []
    else if RefersTo(xs[0], s) then RemoveRefs(xs[1..], s)
    else
      var rest := RemoveRefs(xs[1..], s);
      assert forall k :: RefCount([xs[0]] + rest, k) == RefCount([xs[0]], k) + RefCount(rest, k) by {
        forall k { RefCountAppend([xs[0]], rest, k); }
      }
      [xs[0]] + rest
  }

  /** The first repair pass as intended: every `expansions` array loses the elements that refer to `s`. */
  function StripRefsPass(docs: map<string, Doc>, s: string): map<string, Doc>
  {
    map k | k in docs :: if "expansions" in docs[k] && docs[k]["expansions"].Arr?
      then docs[k]["expansions" := Arr(RemoveRefs(docs[k]["expansions"].elems, s))]
      else docs[k]
  }

  /** `delete` as intended: the stored `{ id, name }` entries of the deleted record are removed too. */
  function DeleteRepairedSpec(docs: map<string, Doc>, id: Option<string>): Outcome
  {
    match id
    case None => Outcome(InternalError(DeleteFailed), docs - {"undefined"})
    case Some(s) =>
      if ValidKey(s) then Outcome(NoContent, ClearBasePass(StripRefsPass(docs - {s}, s), Str(s)))
      else Outcome(InternalError(DeleteFailed), docs)
  }

  /** One record after the repaired `delete`: its references to `s` are gone and its `baseGame` is cleared if it was `s`. */
  lemma RepairedRecord(docs: map<string, Doc>, s: string, k: string)
    requires k in docs && k != s
    ensures var r := ClearBasePass(StripRefsPass(docs - {s}, s), Str(s));
      && k in r
      && ExpansionsOf(r[k]) == RemoveRefs(ExpansionsOf(docs[k]), s)
      && BaseOf(r[k]) == (if Get(docs[k], "baseGame") == Some(Str(s)) then None else BaseOf(docs[k]))
  {
    var stripped := StripRefsPass(docs - {s}, s);
    var r := ClearBasePass(stripped, Str(s));
    assert Get(stripped[k], "baseGame") == Get(docs[k], "baseGame");
    assert ExpansionsOf(r[k]) == ExpansionsOf(stripped[k]);
  }

  /** The repaired `delete` keeps every pointer from an expansion to its base game listed once there. */
  lemma DeleteRepairedKeepsForwardLinks(docs: map<string, Doc>, s: string)
    requires ForwardLinked(docs)
    ensures ForwardLinked(ClearBasePass(StripRefsPass(docs - {s}, s), Str(s)))
  {
    var r := ClearBasePass(StripRefsPass(docs - {s}, s), Str(s));
    forall k | k in r && BaseOf(r[k]).Some?
      ensures BaseOf(r[k]).value in r && RefCount(ExpansionsOf(r[BaseOf(r[k]).value]), k) == 1
    {
      RepairedRecord(docs, s, k);
      var b := BaseOf(r[k]).value;
      assert BaseOf(docs[k]) == Some(b) && b != s;
      RepairedRecord(docs, s, b);
    }
  }

  /** After the repaired `delete` every entry refers to a stored record that points back, and none refers to `s`. */
  lemma DeleteRepairedKeepsBackLinks(docs: map<string, Doc>, s: string)
    requires BackLinked(docs)
    ensures var r := ClearBasePass(StripRefsPass(docs - {s}, s), Str(s));
      BackLinked(r) && forall k, e :: k in r && e in ExpansionsOf(r[k]) ==> !RefersTo(e, s)
  {
    var r := ClearBasePass(StripRefsPass(docs - {s}, s), Str(s));
    forall b, e | b in r && e in ExpansionsOf(r[b])
      ensures RefKey(e).Some? && RefKey(e).value in r && BaseOf(r[RefKey(e).value]) == Some(b)
      ensures !RefersTo(e, s)
    {
      RepairedRecord(docs, s, b);
      assert e in ExpansionsOf(docs[b]);
      var t := RefKey(e).value;
      assert t != s;
      RepairedRecord(docs, s, t);
    }
  }

  /** The repaired `delete` keeps the store linked, and no entry refers to the deleted record any more. */
  lemma DeleteRepairedKeepsLinks(docs: map<string, Doc>, s: string)
    requires Linked(docs)
    requires ValidKey(s)
    ensures var r := DeleteRepairedSpec(docs, Some(s));
      r.response == NoContent && r.docs.Keys == docs.Keys - {s} && Linked(r.docs)
    ensures var r := DeleteRepairedSpec(docs, Some(s)).docs;
      forall k, e :: k in r && e in ExpansionsOf(r[k]) ==> !RefersTo(e, s)
  {
    DeleteRepairedKeepsForwardLinks(docs, s);
    DeleteRepairedKeepsBackLinks(docs, s);
  }

  // ---------------------------------------------------------------------------
  // get: getBoardGames

  /**
    `get`: every stored record, with `id` set to its key, in some order of
    the keys (`keys`, one per record, no repeats). The order Firestore lists
    documents in is not part of this model.
  */
  method GetBoardGames(db: Collection) returns (resp: Response, ghost keys: seq<string>)
    ensures resp.Games?
    ensures |keys| == |resp.games|
    ensures forall i, j :: 0 <= i < j < |keys| ==> keys[i] != keys[j]
    ensures forall k :: k in db.docs <==> k in keys
    ensures forall i :: 0 <= i < |keys| ==> resp.games[i] == db.docs[keys[i]]["id" := Str(keys[i])]
  {
    var games: seq<Doc> := [];
    keys := [];
    var rest := db.docs.Keys;
    while rest != {}
      invariant rest <= db.docs.Keys
      invariant |keys| == |games|
      invariant forall i, j :: 0 <= i < j < |keys| ==> keys[i] != keys[j]
      invariant forall k :: k in db.docs <==> k in keys || k in rest
      invariant forall k :: k in keys ==> k !in rest
      invariant forall i :: 0 <= i < |keys| ==> keys[i] in db.docs && games[i] == db.docs[keys[i]]["id" := Str(keys[i])]
      decreases |rest|
    {
      var k :| k in rest;
      games := games + [db.docs[k]["id" := Str(k)]];
      keys := keys + [k];
      rest := rest - {k};
    }
    resp := Games(games);
  }

  // ---------------------------------------------------------------------------
  // populate: the record mapping and the writes

  /** Whether a fetched record's `id` is `x` (`bg.id === x`). */
  predicate HasId(bg: Doc, x: Value)
  {
    "id" in bg && StrictEquals(bg["id"], x)
  }

  /** `records[i]` is the first record whose `id` is `x`. */
  predicate FirstWithId(records: seq<Doc>, x: Value, i: int)
  {
    0 <= i < |records| && HasId(records[i], x) && forall j :: 0 <= j < i ==> !HasId(records[j], x)
  }

  /** Past a first record without `id` `x`, the first record with it is one place further on. */
  lemma FirstWithIdTail(records: seq<Doc>, x: Value, i: int)
    requires records != [] && !HasId(records[0], x)
    ensures FirstWithId(records, x, i) <==> 0 < i && FirstWithId(records[1..], x, i - 1)
  {
    if 0 < i <= |records| {
      assert forall j :: 0 <= j < i - 1 ==> records[1..][j] == records[j + 1];
      assert forall j :: 1 <= j < i ==> records[j] == records[1..][j - 1];
    }
  }

  /** `records.find(bg => bg.id === x)?.name || ""`. */
  function FindName(records: seq<Doc>, x: Value): (r: Value)
    ensures (forall i :: 0 <= i < |records| ==> !HasId(records[i], x)) ==> r == Str("")
    ensures forall i :: FirstWithId(records, x, i) ==> r == OrElse(Get(records[i], "name"), Str(""))
  {
    if records == [] then Str("")
    else if HasId(records[0], x) then OrElse(Get(records[0], "name"), Str(""))
    else
      var tail := records[1..];
      var r := FindName(tail, x);
      assert forall i :: 1 <= i < |records| ==> records[i] == tail[i - 1];
      assert forall i :: FirstWithId(records, x, i) ==> FirstWithId(tail, x, i - 1) by {
        forall i | FirstWithId(records, x, i) ensures FirstWithId(tail, x, i - 1) {
          FirstWithIdTail(records, x, i);
        }
      }
      r
  }

  /** `expansions.map(expansion => ({ id: expansion, name }))`, with names looked up in `records`. */
  function NamedExpansions(records: seq<Doc>, xs: seq<Value>): seq<Value>
  {
    seq(|xs|, i requires 0 <= i < |xs| => ExpansionRef(xs[i], FindName(records, xs[i])))
  }

  /** Whether `v` is JavaScript `undefined` or `null`, where `?.` stops. */
  predicate Nullish(v: Option<Value>)
  {
    v.None? || v == Some(Null)
  }

  /**
    The mapping of one fetched record: `players` is dropped in favour of
    `max_players` and `min_players` (a falsy limit becomes `null`), and the
    expansion ids become `{ id, name }` objects (none at all becomes `[]`).
    Reading a limit of a missing `players`, or mapping over `expansions`
    that are neither nullish nor an array, throws.
  */
  function MapRecord(records: seq<Doc>, bg: Doc): Option<Doc>
  {
    var players := Get(bg, "players");
    var expansions := Get(bg, "expansions");
    if Nullish(players) then None
    else if !Nullish(expansions) && !expansions.value.Arr? then None
    else
      var named := if Nullish(expansions) then [] else NamedExpansions(records, expansions.value.elems);
      var limits := if players.value.Obj? then players.value.fields else map[];
      Some((bg - {"players"})["expansions" := Arr(named)]
                             ["max_players" := OrElse(Get(limits, "max"), Null)]
                             ["min_players" := OrElse(Get(limits, "min"), Null)])
  }

  /** `boardGames.map(...)` over the fetched list; `None` when the callback throws for some record. */
  function PopulateMapping(records: seq<Doc>): Option<seq<Doc>>
  {
    if forall i :: 0 <= i < |records| ==> MapRecord(records, records[i]).Some? then
      Some(seq(|records|, i requires 0 <= i < |records| => MapRecord(records, records[i]).value))
    else None
  }

  /** The key a mapped record is written under: its `id`, when that is a usable key. */
  function IdKey(d: Doc): Option<string>
  {
    if "id" in d && d["id"].Str? && ValidKey(d["id"].s) then Some(d["id"].s) else None
  }

  /** The store after `doc(id).set(rest)` for each mapped record in turn; a record without a usable `id` writes nothing. */
  function WriteAll(docs: map<string, Doc>, out: seq<Doc>): map<string, Doc>
  {
    if out == [] then docs
    else
      var last := out[|out| - 1];
      var before := WriteAll(docs, out[..|out| - 1]);
      if IdKey(last).Some? then before[IdKey(last).value := last - {"id"}] else before
  }

  /** The outcome of `populate` on the fetched list (`None` when the fetch failed). */
  function PopulateSpec(docs: map<string, Doc>, fetched: Option<seq<Doc>>): Outcome
  {
    match fetched
    case None => Outcome(InternalError(PopulateFailed), docs)
    case Some(records) =>
      match PopulateMapping(records)
      case None => Outcome(InternalError(PopulateFailed), docs)
      case Some(out) =>
        var allWritten := forall i :: 0 <= i < |out| ==> IdKey(out[i]).Some?;
        Outcome(if allWritten then Message(Populated) else InternalError(PopulateFailed), WriteAll(docs, out))
  }

  /** One write of `populate`: `doc(id).set(rest)` for a mapped record, which fails without a usable `id`. */
  method WriteRecord(db: Collection, d: Doc) returns (ok: bool)
    requires db.Valid()
    modifies db
    ensures db.Valid()
    ensures ok == IdKey(d).Some?
    ensures db.docs == if ok then old(db.docs)[IdKey(d).value := d - {"id"}] else old(db.docs)
  {
    var id := Get(d, "id");
    ok := false;
    if id.Some? && id.value.Str? {
      ok := db.Set(id.value.s, d - {"id"});
    }
  }

  /** `populate`: maps the fetched list, then writes each mapped record under its `id`. */
  method PopulateBoardGames(db: Collection, fetched: Option<seq<Doc>>) returns (resp: Response)
    requires db.Valid()
    modifies db
    ensures db.Valid()
    ensures Outcome(resp, db.docs) == PopulateSpec(old(db.docs), fetched)
  {
    if fetched.None? {
      return InternalError(PopulateFailed);
    }
    var mapped := PopulateMapping(fetched.value);
    if mapped.None? {
      return InternalError(PopulateFailed);
    }
    var allWritten := WriteRecords(db, mapped.value);
    resp := if allWritten then Message(Populated) else InternalError(PopulateFailed);
  }

  /** The writes of `populate`, one record after another; `allWritten` says whether every one succeeded. */
  method WriteRecords(db: Collection, out: seq<Doc>) returns (allWritten: bool)
    requires db.Valid()
    modifies db
    ensures db.Valid()
    ensures db.docs == WriteAll(old(db.docs), out)
    ensures allWritten == forall j :: 0 <= j < |out| ==> IdKey(out[j]).Some?
  {
    ghost var before := db.docs;
    allWritten := true;
    var i := 0;
    while i < |out|
      invariant 0 <= i <= |out|
      invariant db.Valid()
      invariant db.docs == WriteAll(before, out[..i])
      invariant allWritten == forall j :: 0 <= j < i ==> IdKey(out[j]).Some?
    {
      assert out[..i + 1][..i] == out[..i];
      var ok := WriteRecord(db, out[i]);
      allWritten := allWritten && ok;
      i := i + 1;
    }
    assert out[..|out|] == out;
  }

  /**
    The populate mapping keeps the length of the list, drops `players`,
    takes `max_players` and `min_players` from it with falsy limits as
    `null`, turns every expansion id into `{ id, name }` with the name of
    the first record having that id (or `""`), and keeps every other field.
  */
  lemma PopulateMappingShape(records: seq<Doc>)
    requires PopulateMapping(records).Some?
    ensures var out := PopulateMapping(records).value;
      |out| == |records| &&
      forall i :: 0 <= i < |out| ==>
        var limits := if records[i]["players"].Obj? then records[i]["players"].fields else map[];
        && "players" !in out[i]
        && out[i]["max_players"] == (if Truthy(Get(limits, "max")) then limits["max"] else Null)
        && out[i]["min_players"] == (if Truthy(Get(limits, "min")) then limits["min"] else Null)
        && out[i]["expansions"].Arr?
        && |out[i]["expansions"].elems| == |ExpansionsOf(records[i])|
        && (forall j :: 0 <= j < |ExpansionsOf(records[i])| ==>
              out[i]["expansions"].elems[j] == ExpansionRef(ExpansionsOf(records[i])[j], FindName(records, ExpansionsOf(records[i])[j])))
        && (forall f :: f !in {"players", "expansions", "max_players", "min_players"} ==> Get(out[i], f) == Get(records[i], f))
  {
    var out := PopulateMapping(records).value;
    forall i | 0 <= i < |out|
      ensures "players" in records[i] && records[i]["players"] != Null
    {
      assert MapRecord(records, records[i]).Some?;
    }
  }

  /** Records whose `id` a later record of the list does not reuse end up stored, without their `id`, under that key. */
  lemma {:induction false} WriteAllStores(docs: map<string, Doc>, out: seq<Doc>, i: nat)
    requires i < |out| && IdKey(out[i]).Some?
    requires forall j :: i < j < |out| ==> IdKey(out[j]) != IdKey(out[i])
    ensures IdKey(out[i]).value in WriteAll(docs, out)
    ensures WriteAll(docs, out)[IdKey(out[i]).value] == out[i] - {"id"}
  {
    var front := out[..|out| - 1];
    if i < |out| - 1 {
      assert forall j :: i < j < |front| ==> front[j] == out[j];
      WriteAllStores(docs, front, i);
    }
  }

  /** Keys no record of the list is written under keep their old record, or their absence. */
  lemma {:induction false} WriteAllKeepsOthers(docs: map<string, Doc>, out: seq<Doc>, k: string)
    requires forall j :: 0 <= j < |out| ==> IdKey(out[j]) != Some(k)
    ensures k in WriteAll(docs, out) <==> k in docs
    ensures k in docs ==> WriteAll(docs, out)[k] == docs[k]
  {
    if out != [] {
      var front := out[..|out| - 1];
      assert forall j :: 0 <= j < |front| ==> front[j] == out[j];
      WriteAllKeepsOthers(docs, front, k);
    }
  }

  // ---------------------------------------------------------------------------
  // every handler keeps each stored id equal to its key

  /** `post` stores the new record with its own key as `id` and otherwise writes only `expansions`. */
  lemma AddKeepsStoredIds(docs: map<string, Doc>, key: string, bg: Doc)
    requires StoredIdsMatch(docs) && ValidKey(key)
    ensures StoredIdsMatch(AddSpec(docs, key, bg).docs)
  {
    var added := docs[key := bg["id" := Str(key)]];
    assert StoredIdsMatch(added);
    match Get(bg, "baseGame")
    case Some(Str(b)) =>
      if b != "-1" && ValidKey(b) && b in added && "name" in bg {
        var base := added[b];
        assert Get(base["expansions" := ArrayUnion(Get(base, "expansions"), ExpansionRef(Str(key), bg["name"]))], "id") == Get(base, "id");
      }
    case _ =>
  }

  /** `put` stores the record under its own `id`. */
  lemma EditKeepsStoredIds(docs: map<string, Doc>, body: Option<Doc>)
    requires StoredIdsMatch(docs)
    ensures StoredIdsMatch(EditSpec(docs, body).docs)
  {
  }

  /** The writes of `populate` store records without their `id`, under usable keys. */
  lemma {:induction false} WriteAllKeepsIds(docs: map<string, Doc>, out: seq<Doc>)
    requires StoredIdsMatch(docs)
    ensures StoredIdsMatch(WriteAll(docs, out))
  {
    if out != [] {
      WriteAllKeepsIds(docs, out[..|out| - 1]);
    }
  }

  /** `populate` keeps each stored `id` equal to its key. */
  lemma PopulateKeepsStoredIds(docs: map<string, Doc>, fetched: Option<seq<Doc>>)
    requires StoredIdsMatch(docs)
    ensures StoredIdsMatch(PopulateSpec(docs, fetched).docs)
  {
    if fetched.Some? && PopulateMapping(fetched.value).Some? {
      WriteAllKeepsIds(docs, PopulateMapping(fetched.value).value);
    }
  }
}
