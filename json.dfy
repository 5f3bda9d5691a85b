/** The outcome types shared by every module: an optional value, and a value or
    the kind of error the source throws. */
module Outcomes {

  datatype Option<+T> = None | Some(value: T)

  /** The error kinds the archive distinguishes; `Remote` carries the message of a
      feed answer whose code is not 200. */
  datatype Error =
    | Validation      // a payload failed `validateData`
    | Corrupted       // a blob could not be decompressed or parsed
    | NotFound        // an expected file is absent
    | BadTimestamp    // `toISOString` of an invalid date
    | TypeError       // a method called on a value that lacks it
    | Remote(message: string)

  datatype Result<+T> = Ok(value: T) | Err(error: Error)

  /** The outcome of an operation that returns nothing or throws. */
  datatype Outcome = Pass | Fail(error: Error)
}

/** Parsed JSON values, as `JSON.parse` hands them to the archive code. */
module Json {
  import opened Outcomes
  import opened Text

  /** Numbers are idealised as integers; an object keeps its members in order. */
  datatype Json =
    | JNull
    | JBool(b: bool)
    | JNum(n: int)
    | JStr(s: string)
    | JArr(items: seq<Json>)
    | JObj(members: seq<Member>)

  datatype Member = Member(key: string, value: Json)

  /** The members' values, in order. */
  function Values(members: seq<Member>): (vs: seq<Json>)
    ensures |vs| == |members|
    ensures forall k :: 0 <= k < |members| ==> vs[k] == members[k].value
  {
    if members == [] then [] else [members[0].value] + Values(members[1..])
  }

  /** `v[key]` on a parsed object: the last member with that key, as
      `JSON.parse` keeps the last of duplicate keys; nothing on other values. */
  function Get(v: Json, key: string): (r: Option<Json>)
    ensures r.Some? <==> v.JObj? && exists k :: 0 <= k < |v.members| && v.members[k].key == key
    ensures r.Some? ==> exists k :: 0 <= k < |v.members| && v.members[k] == Member(key, r.value)
  {
    if v.JObj? then Lookup(v.members, key) else None
  }

  function Lookup(members: seq<Member>, key: string): (r: Option<Json>)
    ensures r.Some? <==> exists k :: 0 <= k < |members| && members[k].key == key
    ensures r.Some? ==> exists k :: 0 <= k < |members| && members[k] == Member(key, r.value)
  {
    if members == [] then None
    else if members[|members| - 1].key == key then Some(members[|members| - 1].value)
    else
      var init := members[..|members| - 1];
      var r := Lookup(init, key);
      assert forall k :: 0 <= k < |init| ==> init[k] == members[k];
      r
  }

  /** The last member carrying the key gives the value: a later duplicate
      shadows the earlier ones. */
  lemma {:induction false} LookupLast(members: seq<Member>, key: string, k: nat)
    requires k < |members| && members[k].key == key
    requires forall j :: k < j < |members| ==> members[j].key != key
    ensures Lookup(members, key) == Some(members[k].value)
  {
    if k < |members| - 1 {
      var init := members[..|members| - 1];
      LookupLast(init, key, k);
    }
  }

  /** `key in v`: the key is an own member of the object. */
  predicate Has(v: Json, key: string) {
    Get(v, key).Some?
  }

  /** `a === b` on two values that came out of separate `JSON.parse` calls:
      primitives compare by value, arrays and objects are distinct objects. */
  predicate StrictlyEqual(a: Json, b: Json) {
    !a.JArr? && !a.JObj? && a == b
  }

  /** `v.length` on a parsed value other than `null`: the number of items of
      an array or characters of a string, the own `length` member of an
      object, and `undefined` (nothing) on numbers and booleans. */
  function LengthOf(v: Json): Option<Json> {
    match v
    case JArr(items) => Some(JNum(|items|))
    case JStr(s) => Some(JNum(|s|))
    case JObj(_) => Get(v, "length")
    case _ => None
  }

  /** `v[i]` on a parsed value other than `null`: an array's item, a string's
      character as a string, the object's member named by the decimal `i`,
      and `undefined` (nothing) when there is none. */
  function IndexOf(v: Json, i: nat): Option<Json> {
    match v
    case JArr(items) => if i < |items| then Some(items[i]) else None
    case JStr(s) => if i < |s| then Some(JStr([s[i]])) else None
    case JObj(_) => Get(v, NatToString(i))
    case _ => None
  }

  /** JavaScript's `String(n)` for an integer. */
  function IntToString(n: int): string {
    if n < 0 then "-" + NatToString(-n) else NatToString(n)
  }

  /** `String(v)` of a parsed value, as a template literal renders it: an
      array is joined with commas, an object is `[object Object]`. */
  function Display(v: Json): string {
    match v
    case JNull => "null"
    case JBool(b) => if b then "true" else "false"
    case JNum(n) => IntToString(n)
    case JStr(s) => s
    case JArr(items) => Join(JoinParts(items), ",")
    case JObj(_) => "[object Object]"
  }

  /** The parts `join` concatenates: `null` becomes the empty string. */
  function JoinParts(items: seq<Json>): (parts: seq<string>)
    ensures |parts| == |items|
    ensures forall k :: 0 <= k < |items| ==> parts[k] == if items[k].JNull? then "" else Display(items[k])
  {
    if items == [] then []
    else [if items[0].JNull? then "" else Display(items[0])] + JoinParts(items[1..])
  }

  /** `s` when `v` is a string. */
  function AsString(v: Option<Json>): Option<string> {
    if v.Some? && v.value.JStr? then Some(v.value.s) else None
  }
}
