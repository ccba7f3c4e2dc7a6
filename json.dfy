/** A decoded JSON value, as `json.load` hands it to `get_ips`.
    Objects are association lists so that the insertion order of a Python
    `dict` and the absence of a key can both be expressed. */
module Json {

  datatype Option<+T> = None | Some(value: T)

  datatype Json =
    | JNull
    | JBool(b: bool)
    | JNum(n: int)
    | JStr(s: string)
    | JArr(items: seq<Json>)
    | JObj(fields: seq<(string, Json)>)

  /** The keys of a Python dict are pairwise distinct. */
  predicate DistinctKeys(fields: seq<(string, Json)>)
  {
    forall i, j :: 0 <= i < j < |fields| ==> fields[i].0 != fields[j].0
  }

  predicate IsObject(j: Json)
  {
    j.JObj? && DistinctKeys(j.fields)
  }

  /** `d[key]` on a dict: the value stored under `key`, or None where Python raises KeyError. */
  function Get(fields: seq<(string, Json)>, key: string): (r: Option<Json>)
    ensures r.None? <==> forall i :: 0 <= i < |fields| ==> fields[i].0 != key
    ensures r.Some? ==> exists i :: 0 <= i < |fields| && fields[i] == (key, r.value)
  {
    if fields == [] then None
    else if fields[0].0 == key then Some(fields[0].1)
    else Get(fields[1..], key)
  }

  /** `key in d` on a dict. */
  predicate HasKey(fields: seq<(string, Json)>, key: string)
  {
    Get(fields, key).Some?
  }
}
