/** The usual optional value, used where Python returns None or a match object. */
module Options {

  datatype Option<T> = None | Some(value: T)

}
