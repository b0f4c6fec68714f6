/** Small value wrappers shared by the three services. */
module Wrappers {

  /** A value that may be missing (Python's None). */
  datatype Option<+T> = None | Some(value: T)

  /** A key of a parsed JSON object: absent, present with `null`, or present with a value.
      The distinction matters because `data.get(key, default)` yields the default only
      for an absent key and yields None for an explicit `null`. */
  datatype Field<+T> = Absent | Null | Given(value: T)

  /** `data.get(key, default)`: the default when absent, None for null, the value otherwise. */
  function GetOr<T>(f: Field<T>, default: T): (r: Option<T>)
    ensures f.Absent? ==> r == Some(default)
    ensures f.Null? ==> r.None?
    ensures f.Given? ==> r == Some(f.value)
  {
    match f
    case Absent => Some(default)
    case Null => None
    case Given(v) => Some(v)
  }
}
