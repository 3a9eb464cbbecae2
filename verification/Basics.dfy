/** What several modules use. */
module Basics {
  datatype Option<+T> = None | Some(value: T)

  predicate HasPrefix(s: string, t: string) { |t| <= |s| && s[..|t|] == t }

  function Min(a: int, b: int): int { if a < b then a else b }
}
