/** An optional value, used for DOM attributes and form fields that may be absent (`null`). */
module Optional {

  datatype Option<+T> = None | Some(value: T)

  /** JavaScript truthiness of a string that may be `null`: present and not the empty string. */
  predicate Truthy(v: Option<string>)
  {
    v.Some? && v.value != ""
  }
}
