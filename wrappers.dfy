/** Small value wrappers shared by the other modules. */
module Wrappers {

  datatype Option<+T> = None | Some(value: T)

  datatype Result<+T, +E> = Success(value: T) | Failure(error: E)

  /** One key of a JSON request body: missing, present with `null`, or present with a value.
      `Get` is Python's `request.data.get(key)`, which yields `None` in the first two cases. */
  datatype Field<+T> = Absent | Null | Given(value: T) {
    function Get(): (r: Option<T>)
      ensures r.Some? <==> Given?
      ensures Given? ==> r.value == value
    {
      if Given? then Some(value) else None
    }
  }
}
