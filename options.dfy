// A value that may be absent: an editor view that may not be open, a line
// that may not be a heading, a word that may not open a suggestion.

module Options {
  datatype Option<T> = None | Some(value: T)
}
