/** Small result types shared by the other modules. */
module Base {

  /** A value that may be absent; `None` also stands for JavaScript's `-1`
      "not found" index. */
  datatype Option<+T> = None | Some(value: T)

  /** The result of an awaited call that returns nothing: it either resolves
      or throws an error, recorded here as the text `String(err)` would give. */
  datatype Step = Succeeds | Fails(error: string)

  /** The result of an awaited call that returns a value or throws. */
  datatype Attempt<+T> = Ok(value: T) | Throws(error: string)
}
