/** Types and facts shared by the models. */
module Wrappers {
  datatype Option<+T> = None | Some(value: T)

  datatype Result<+T, +E> = Ok(value: T) | Err(error: E)

  newtype Byte = x: int | 0 <= x < 256

  type Bytes = seq<Byte>

  /** `protoutil.SignedData`: a message, the serialized identity of its signer, and the signature. */
  datatype SignedData = SignedData(data: Bytes, identity: Bytes, signature: Bytes)

  /** No two elements are equal. */
  predicate Distinct<T(==)>(xs: seq<T>) {
    forall i, j | 0 <= i < j < |xs| :: xs[i] != xs[j]
  }

  lemma {:induction false} SubsetSize<T>(a: set<T>, b: set<T>)
    requires a <= b
    ensures |a| <= |b|
    decreases |a|
  {
    if x :| x in a {
      SubsetSize(a - {x}, b - {x});
    }
  }
}
