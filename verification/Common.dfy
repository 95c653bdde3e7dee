/**
  What several modules share: an optional value, and prefixes of strings.
*/
module Common {
  datatype Option<T> = None | Some(value: T)

  predicate StartsWith(s: string, prefix: string) {
    |prefix| <= |s| && s[..|prefix|] == prefix
  }
}
