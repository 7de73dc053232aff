/** Option, for the JavaScript `undefined` of a missing property or a failed `find`. */
module Wrappers {
  datatype Option<+T> = None | Some(value: T)
}

/**
  The JSON-like values that travel between the web client, the HTTP handlers
  and the document store, with the few pieces of JavaScript semantics the
  catalog code relies on: truthiness, `||`, strict equality, string
  conversion, `toLowerCase` and `includes`.
*/
module JsValues {
  import opened Wrappers

  /** A JSON value. Numbers are integers here; objects are maps from field name to value. */
  datatype Value =
    | Null
    | Bool(b: bool)
    | Num(n: int)
    | Str(s: string)
    | Arr(elems: seq<Value>)
    | Obj(fields: map<string, Value>)

  /** A stored document or a board-game record: an object's fields. */
  type Doc = map<string, Value>

  /** `d[key]`, with `None` standing for `undefined`. */
  function Get(d: Doc, key: string): Option<Value>
  {
    if key in d then Some(d[key]) else None
  }

  /** JavaScript truthiness of a property read (`undefined`, `null`, `false`, `0` and `""` are falsy). */
  predicate Truthy(v: Option<Value>)
  {
    match v
    case None => false
    case Some(Null) => false
    case Some(Bool(b)) => b
    case Some(Num(n)) => n != 0
    case Some(Str(s)) => s != ""
    case Some(Arr(_)) => true
    case Some(Obj(_)) => true
  }

  /** `v || fallback`. */
  function OrElse(v: Option<Value>, fallback: Value): (r: Value)
    ensures Truthy(v) ==> Some(r) == v
    ensures !Truthy(v) ==> r == fallback
  {
    if Truthy(v) then v.value else fallback
  }

  /** `a === b`: primitives compare by value; two objects or arrays parsed from JSON are never the same reference. */
  predicate StrictEquals(a: Value, b: Value)
  {
    match a
    case Arr(_) => false
    case Obj(_) => false
    case _ => a == b
  }

  /** The object literal `{ id, name }` that the catalog stores as a reverse link. */
  function ExpansionRef(id: Value, name: Value): Value
  {
    Obj(map["id" := id, "name" := name])
  }

  /** Decimal digits of a natural number. */
  function NatToString(n: nat): (r: string)
    ensures |r| > 0
    decreases n
  {
    var d := ['0', '1', '2', '3', '4', '5', '6', '7', '8', '9'][n % 10];
    if n < 10 then [d] else NatToString(n / 10) + [d]
  }

  /** `String(n)` for an integer. */
  function IntToString(n: int): string
  {
    if n < 0 then "-" + NatToString(-n) else NatToString(n)
  }

  /** `Array.prototype.join(",")` applied to already converted elements. */
  function JoinWithCommas(parts: seq<string>): string
  {
    if parts == [] then ""
    else if |parts| == 1 then parts[0]
    else parts[0] + "," + JoinWithCommas(parts[1..])
  }

  /** `String(v)`: the string a value is converted to before it reaches a collator. */
  function ToJsString(v: Value): string
  {
    match v
    case Null => "null"
    case Bool(b) => if b then "true" else "false"
    case Num(n) => IntToString(n)
    case Str(s) => s
    case Obj(_) => "[object Object]"
    case Arr(xs) =>
      // inside an array, null becomes the empty string
      JoinWithCommas(seq(|xs|, i requires 0 <= i < |xs| => if xs[i] == Null then "" else ToJsString(xs[i])))
  }

  /** `toLowerCase` on one character, restricted to ASCII. */
  function LowerChar(c: char): char
  {
    if 'A' <= c <= 'Z' then (c as int + 32) as char else c
  }

  /** `s.toLowerCase()`, restricted to ASCII letters. */
  function LowerCase(s: string): (r: string)
    ensures |r| == |s|
    ensures forall i :: 0 <= i < |s| ==> r[i] == LowerChar(s[i])
  {
    seq(|s|, i requires 0 <= i < |s| => LowerChar(s[i]))
  }

  /** Lowercasing twice is lowercasing once. */
  lemma LowerCaseIdempotent(s: string)
    ensures LowerCase(LowerCase(s)) == LowerCase(s)
  {
    var once := LowerCase(s);
    forall i | 0 <= i < |s|
      ensures LowerCase(once)[i] == once[i]
    {
      assert LowerChar(LowerChar(s[i])) == LowerChar(s[i]);
    }
  }

  /** `hay.includes(needle)`: `needle` occurs in `hay` at some offset. */
  predicate Includes(hay: string, needle: string)
  {
    exists i :: 0 <= i <= |hay| - |needle| && OccursAt(hay, needle, i)
  }

  /** `needle` is the slice of `hay` that starts at offset `i`. */
  predicate OccursAt(hay: string, needle: string, i: int)
  {
    0 <= i <= |hay| - |needle| && hay[i..i + |needle|] == needle
  }

  /** Every string includes the empty string, and every string includes itself. */
  lemma IncludesEmptyAndSelf(hay: string)
    ensures Includes(hay, "")
    ensures Includes(hay, hay)
  {
    assert OccursAt(hay, "", 0);
    assert OccursAt(hay, hay, 0);
  }
}
