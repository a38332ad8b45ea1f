/** Optional values, standing in for JavaScript's `null`-or-value. */
module Wrappers {

  /** A value that may be absent (`null` in js/state.js and js/pipeline.js). */
  datatype Option<+T> = None | Some(value: T)

  /** JavaScript truthiness of a `string | null` value: `null` and the empty
      string are falsy, every other string is truthy. Both `push` of the
      letter tracker and `pushLetterToBuffer` start with a `!letter` test. */
  predicate Truthy(letter: Option<string>) {
    letter.Some? && letter.value != ""
  }
}
