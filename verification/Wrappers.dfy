/** Types and characters that several modules share. */
module Wrappers {

  datatype Option<T> = None | Some(value: T)

  /** An unsigned 64-bit integer: assigning to it is the proof that a value fits. */
  type Word64 = x: nat | x < 0x1_0000_0000_0000_0000

  /** `isspace` in the C locale. */
  predicate IsSpace(c: char) {
    c == ' ' || '\t' <= c <= '\r'
  }

  lemma SpaceCodes(c: char)
    ensures IsSpace(c) <==> c as int in {9, 10, 11, 12, 13, 32}
  {
  }
}
