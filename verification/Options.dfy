/** Optional results: None stands for a read that would leave the memory it may look at. */
module Options {
  datatype Option<+T> = None | Some(value: T)
}
