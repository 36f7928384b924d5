/** The conventional Some/None datatype, standing in for a Java reference that may be null
    and for an operation that may throw. */
module Optional {

  datatype Option<+T> = None | Some(value: T)

}
