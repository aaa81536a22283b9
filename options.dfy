/** The optional value used throughout the model: a nullable column, a lookup
    that finds nothing, or a Python conversion that raises. */
module Options {

  datatype Option<+T> = None | Some(value: T)

}
