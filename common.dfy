/** Small shared datatypes: an optional value, standing for Python's `None`
    or a value, and a result that is either a value or an error message. */
module Common {

  datatype Option<T> = None | Some(value: T)

  datatype Result<T> = Ok(value: T) | Err(message: string)

  /** Python truthiness of an optional string: `None` and `""` are false. */
  predicate Truthy(o: Option<string>) {
    o.Some? && o.value != ""
  }

  /** The text `csv.DictWriter` writes for a value that may be `None`. */
  function TextOf(o: Option<string>): string {
    if o.Some? then o.value else ""
  }
}
