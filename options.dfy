/** An optional value: the text read back from a fragment, or a process exit status. */
module Options {

  datatype Option<T> = None | Some(value: T)
}
