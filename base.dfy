// Small shared vocabulary: optional values and bytes on the serial wire.
module Base {

  /** Rust's `Option<T>`. */
  datatype Option<+T> = None | Some(value: T)

  /** A `u8`, as carried on the serial link between host and bridge device. */
  newtype Byte = x: int | 0 <= x < 0x100

  /** True when every byte of `s` is one of `allowed`. */
  predicate AllIn(s: seq<Byte>, allowed: set<Byte>)
  {
    forall i :: 0 <= i < |s| ==> s[i] in allowed
  }

  /** Concatenation of sequences is associative. */
  lemma AppendAssociative<T>(a: seq<T>, b: seq<T>, c: seq<T>)
    ensures (a + b) + c == a + (b + c)
  {
  }
}
