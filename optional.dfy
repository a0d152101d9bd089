/** An optional value: `None` stands for Python's `None`, for a missing
    dictionary entry and for a computation whose exception was swallowed. */
module Optional {

  datatype Option<+T> = None | Some(value: T)
}
