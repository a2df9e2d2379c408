/** Values the page's host objects hand to the script: optional attribute
    and storage values, and the string form of a boolean. */
module Dom {

  /** An attribute or storage entry that may be absent (`null` in the page). */
  datatype Option<+T> = None | Some(value: T)

  /** Lookup as `localStorage.getItem` does it: the stored string, or nothing. */
  function GetItem(storage: map<string, string>, key: string): (r: Option<string>)
    ensures r.Some? <==> key in storage
    ensures r.Some? ==> r.value == storage[key]
  {
    if key in storage then Some(storage[key]) else None
  }

  /** `String(b)` for a boolean. */
  function BoolString(b: bool): (r: string)
    ensures r == "true" || r == "false"
  {
    if b then "true" else "false"
  }

  /** The two spellings are told apart: reading "true" back recovers the boolean. */
  lemma BoolStringReadsBack(b: bool)
    ensures (BoolString(b) == "true") == b
    ensures (BoolString(b) == "false") == !b
  {
  }
}
