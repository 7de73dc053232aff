/**
  The document store the catalog handlers run against: one Firestore
  collection, a mutable map from document key to document, with the four
  write primitives the handlers use (`set`, `update`, `delete`, `add`), the
  `arrayUnion` field transform and the two query filters (`array-contains`
  and `==`).
*/
module Firestore {
  import opened Wrappers
  import opened JsValues

  /** A key `collection.doc(key)` accepts as one document of this collection: non-empty, without `/`. */
  predicate ValidKey(key: string)
  {
    key != "" && forall i :: 0 <= i < |key| ==> key[i] != '/'
  }

  /** The number of times `x` occurs in `xs`. */
  function Count(xs: seq<Value>, x: Value): nat
  {
    multiset(xs)[x]
  }

  /** `FieldValue.arrayUnion(e)` applied to the current value of a field: `e` is appended unless already present; a missing or non-array field becomes `[e]`. */
  function ArrayUnion(current: Option<Value>, e: Value): Value
  {
    match current
    case Some(Arr(xs)) => if e in xs then Arr(xs) else Arr(xs + [e])
    case _ => Arr([e])
  }

  /** The union keeps every earlier element where it was, and `e` occurs in the result exactly as often as before when it was present and once when it was not. */
  lemma ArrayUnionKeeps(xs: seq<Value>, e: Value)
    ensures ArrayUnion(Some(Arr(xs)), e).Arr?
    ensures xs <= ArrayUnion(Some(Arr(xs)), e).elems
    ensures Count(ArrayUnion(Some(Arr(xs)), e).elems, e) == if e in xs then Count(xs, e) else 1
    ensures forall y :: y != e ==> Count(ArrayUnion(Some(Arr(xs)), e).elems, y) == Count(xs, y)
  {
    if e !in xs {
      assert multiset(xs + [e]) == multiset(xs) + multiset{e};
    }
  }

  /** A retried union adds nothing: `arrayUnion` is idempotent. */
  lemma ArrayUnionIdempotent(current: Option<Value>, e: Value)
    ensures ArrayUnion(Some(ArrayUnion(current, e)), e) == ArrayUnion(current, e)
  {
    match current
    case Some(Arr(xs)) =>
      if e !in xs {
        assert (xs + [e])[|xs|] == e;
      }
    case _ =>
      assert [e][0] == e;
  }

  /** The field transforms `update` is called with. */
  datatype FieldUpdate =
    | Assign(value: Value)
    | Union(element: Value)

  /** The document after `update({ [field]: op })`. */
  function ApplyUpdate(d: Doc, field: string, op: FieldUpdate): Doc
  {
    match op
    case Assign(v) => d[field := v]
    case Union(e) => d[field := ArrayUnion(Get(d, field), e)]
  }

  /** The keys of the documents whose `field` is an array holding `v` (`where(field, "array-contains", v)`). */
  function WhereArrayContains(docs: map<string, Doc>, field: string, v: Value): set<string>
  {
    set k | k in docs && field in docs[k] && docs[k][field].Arr? && v in docs[k][field].elems
  }

  /** The keys of the documents whose `field` equals `v` (`where(field, "==", v)`). */
  function WhereEqual(docs: map<string, Doc>, field: string, v: Value): set<string>
  {
    set k | k in docs && Get(docs[k], field) == Some(v)
  }

  /**
    A key that is in none of `keys`: a run of `k` longer than every key there.
    This stands for Firestore's random document ids.
  */
  method FreshKey(keys: set<string>) returns (key: string)
    ensures key !in keys
    ensures ValidKey(key)
  {
    var longest: nat := 0;
    var rest := keys;
    while rest != {}
      invariant rest <= keys
      invariant forall k :: k in keys && k !in rest ==> |k| <= longest
      decreases |rest|
    {
      var k :| k in rest;
      if |k| > longest {
        longest := |k|;
      }
      rest := rest - {k};
    }
    key := seq(longest + 1, _ => 'k');
    assert forall k :: k in keys ==> |k| < |key|;
  }

  /** The `board_games` collection. */
  class Collection {
    var docs: map<string, Doc>

    /** Every stored document sits under a usable key. */
    ghost predicate Valid()
      reads this
    {
      forall k :: k in docs ==> ValidKey(k)
    }

    constructor (initial: map<string, Doc>)
      requires forall k :: k in initial ==> ValidKey(k)
      ensures Valid()
      ensures docs == initial
    {
      docs := initial;
    }

    /** `doc(key).set(d)`: overwrites or creates; an unusable key throws before anything is written. */
    method Set(key: string, d: Doc) returns (ok: bool)
      requires Valid()
      modifies this
      ensures Valid()
      ensures ok == ValidKey(key)
      ensures docs == if ok then old(docs)[key := d] else old(docs)
    {
      ok := ValidKey(key);
      if ok {
        docs := docs[key := d];
      }
    }

    /** `doc(key).update({ [field]: op })`: fails, writing nothing, when the document does not exist. */
    method Update(key: string, field: string, op: FieldUpdate) returns (ok: bool)
      requires Valid()
      modifies this
      ensures Valid()
      ensures ok == (ValidKey(key) && key in old(docs))
      ensures docs == if ok then old(docs)[key := ApplyUpdate(old(docs)[key], field, op)] else old(docs)
    {
      ok := ValidKey(key) && key in docs;
      if ok {
        docs := docs[key := ApplyUpdate(docs[key], field, op)];
      }
    }

    /** `doc(key).delete()`: succeeds whether or not the document exists. */
    method Delete(key: string) returns (ok: bool)
      requires Valid()
      modifies this
      ensures Valid()
      ensures ok == ValidKey(key)
      ensures docs == if ok then old(docs) - {key} else old(docs)
    {
      ok := ValidKey(key);
      if ok {
        docs := docs - {key};
      }
    }

    /** `add(d)`: stores `d` under a new key and returns that key. */
    method Add(d: Doc) returns (key: string)
      requires Valid()
      modifies this
      ensures Valid()
      ensures key !in old(docs) && ValidKey(key)
      ensures docs == old(docs)[key := d]
    {
      key := FreshKey(docs.Keys);
      docs := docs[key := d];
    }
  }
}
