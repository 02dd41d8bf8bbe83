/**
 * The value `json.loads` hands back for the vision model's reply, and the two
 * Python operators the validator applies to it: `key in v` and `v[key]`.
 */
module JsonValues {
  import opened Wrappers

  /** A decoded JSON document: a Python None, bool, number, str, list or dict. */
  datatype Json =
    | JNull
    | JBool(b: bool)
    | JNum(n: real)
    | JStr(s: string)
    | JArr(items: seq<Json>)
    | JObj(fields: map<string, Json>)

  /** `k` occurs as a contiguous piece of `s` (Python's `k in s` on two strs). */
  predicate IsSubstring(k: string, s: string)
  {
    |k| <= |s| && (s[..|k|] == k || IsSubstring(k, s[1..]))
  }

  /**
   * Python's `key in v` for a str `key`: membership of the keys of a dict, a
   * substring test on a str, an element test on a list; None when Python
   * raises TypeError (None, bools and numbers are not iterable).
   */
  function PyContains(v: Json, key: string): (r: Option<bool>)
    ensures r.None? <==> v.JNull? || v.JBool? || v.JNum?
    ensures v.JObj? ==> r == Some(key in v.fields)
    ensures v.JStr? ==> r == Some(IsSubstring(key, v.s))
    ensures v.JArr? ==> r == Some(JStr(key) in v.items)
  {
    match v
    case JObj(fields) => Some(key in fields)
    case JStr(s) => Some(IsSubstring(key, s))
    case JArr(items) => Some(JStr(key) in items)
    case _ => None
  }
}
