/** A value that may be missing, and JavaScript's `v || ""` on such a value. */
module Wrappers {

  /** `None` stands for a falsy non-string argument (null, undefined, ...). */
  datatype Option<+T> = None | Some(value: T)

  /** JavaScript's `v || ""`: a falsy value becomes the empty string. */
  function OrEmpty(v: Option<string>): (r: string)
    ensures r == [] <==> (v.None? || v.value == [])
    ensures v.Some? ==> r == v.value
  {
    match v
    case None => []
    case Some(s) => s
  }
}
