/** Outcome types shared by the codec. */
module Results {

  /** An optional value, used when a numeric code may name no enumeration value. */
  datatype Option<+T> = None | Some(value: T)

  /** The codec's functions either return a value or the PHP literal `false`;
      `Failure` stands for that `false`, so it can never be mistaken for a
      legitimate zero or empty result. */
  datatype Result<+T> = Success(value: T) | Failure
}
