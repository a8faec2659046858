/**
 * Decoded JSON values as `json.load` produces them, and the few Python
 * operations the UniProt and PubChem helpers apply to them: `dict.get`,
 * truthiness, iteration and `str()`.
 */
module Json {
  import opened Wrappers
  import opened Strings

  /**
   * A decoded JSON value. An object keeps its members in document order;
   * numbers are integers only.
   */
  datatype Json =
    | JNull
    | JBool(b: bool)
    | JInt(n: int)
    | JStr(s: string)
    | JArr(items: seq<Json>)
    | JObj(fields: seq<(string, Json)>)

  /**
   * The value of `key` among `fields`: `json.load` keeps the last of
   * repeated keys, so the last occurrence wins.
   */
  function Lookup(fields: seq<(string, Json)>, key: string): Option<Json> {
    if |fields| == 0 then None
    else if fields[|fields| - 1].0 == key then Some(fields[|fields| - 1].1)
    else Lookup(fields[..|fields| - 1], key)
  }

  /**
   * A key is found exactly when some member has it, and then the value is
   * that of a member with the key that no later member shares.
   */
  lemma {:induction false} LookupSpec(fields: seq<(string, Json)>, key: string)
    ensures Lookup(fields, key).None? <==> forall i :: 0 <= i < |fields| ==> fields[i].0 != key
    ensures Lookup(fields, key).Some? ==>
      exists i :: 0 <= i < |fields| && fields[i] == (key, Lookup(fields, key).value)
        && forall j :: i < j < |fields| ==> fields[j].0 != key
  {
    if |fields| > 0 && fields[|fields| - 1].0 != key {
      var init := fields[..|fields| - 1];
      LookupSpec(init, key);
      assert forall i :: 0 <= i < |init| ==> init[i] == fields[i];
    }
  }

  /** `o.get(key)` for an object; `None` for anything else. */
  function Get(o: Json, key: string): Option<Json> {
    if o.JObj? then Lookup(o.fields, key) else None
  }

  /** `o.get(key, default)` for an object. */
  function GetOr(o: Json, key: string, default: Json): Json {
    Get(o, key).GetOr(default)
  }

  /** Python truthiness of a decoded value. */
  predicate Truthy(j: Json) {
    match j
    case JNull => false
    case JBool(b) => b
    case JInt(n) => n != 0
    case JStr(s) => s != ""
    case JArr(items) => items != []
    case JObj(fields) => fields != []
  }

  /**
   * What a `for` loop over `j` visits: the items of a list, the keys of a
   * dict, the characters of a string. `None` stands for the `TypeError`
   * raised when iterating `None`, a boolean or a number.
   */
  function Iterate(j: Json): (r: Option<seq<Json>>)
    ensures r.None? <==> (j.JNull? || j.JBool? || j.JInt?)
    ensures j.JArr? ==> r == Some(j.items)
    ensures r.Some? && !j.JArr? ==> forall k :: 0 <= k < |r.value| ==> r.value[k].JStr?
  {
    match j
    case JArr(items) => Some(items)
    case JObj(fields) => Some(seq(|fields|, k requires 0 <= k < |fields| => JStr(fields[k].0)))
    case JStr(s) => Some(seq(|s|, k requires 0 <= k < |s| => JStr([s[k]])))
    case _ => None
  }

  /** The message of the `TypeError` raised by iterating a value that is not iterable. */
  const NotIterable := "object is not iterable"

  /**
   * `str(j)` for a scalar. The text of a container is not modelled and is
   * the empty string here.
   */
  function Str(j: Json): (r: string)
    ensures j.JStr? ==> r == j.s
    ensures j.JInt? ==> r == IntToString(j.n)
  {
    match j
    case JNull => "None"
    case JBool(b) => if b then "True" else "False"
    case JInt(n) => IntToString(n)
    case JStr(s) => s
    case _ => ""
  }
}
