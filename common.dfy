/** Values shared by every service: an optional value, standing for a
    nullable reference or a nullable id in the application. */
module Common {

  datatype Option<T> = None | Some(value: T)
}
