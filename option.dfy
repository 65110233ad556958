/** An optional value: a nullable pointer, or a decoder's failure. */
module Maybe {

  datatype Option<T> = None | Some(value: T)
}
