/** Small value wrappers shared by the rest of the model. */
module Wrappers {

  datatype Option<+T> = None | Some(value: T)

  /** One key of a JSON request body: missing, present as `null`, or present
      with a value. Python's `dict.get(key, default)` tells the first apart from
      the other two only by returning the default. */
  datatype JsonField<+T> = Absent | Null | Present(value: T)
}
