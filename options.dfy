/** An optional value: `None` stands for the source's "unset" or "no result". */
module Optional {
  datatype Option<T> = None | Some(value: T)
}
