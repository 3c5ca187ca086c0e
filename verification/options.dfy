/** Optional values: a task query either yields its task names or fails. */
module Options {

  /** `None` stands for a failed query, `Some` for a successful one. */
  datatype Option<+T> = None | Some(value: T)
}
