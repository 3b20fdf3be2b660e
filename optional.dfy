/** An optional value, for `std::optional` results and absent files. */
module Optional {

  datatype Option<T> = None | Some(value: T)
}
