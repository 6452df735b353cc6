/** The one fact about concatenation that the verifier has to be told. */
module Sequences {
  lemma Associates<T>(x: seq<T>, y: seq<T>, z: seq<T>)
    ensures x + y + z == x + (y + z)
  {
  }
}
