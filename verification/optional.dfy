/** Small option type shared by the lookups and parsers of the model. */
module Optional {

  datatype Option<+T> = None | Some(value: T)
}
