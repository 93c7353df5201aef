/** Small shared vocabulary: optional values and the aggressor side of a trade. */
module Types {

  /** Python's `None` or a present value. */
  datatype Option<+T> = None | Some(value: T)

  /** The labels "BUY", "SELL" and "UNKNOWN" that the classifiers return. */
  datatype Side = Buy | Sell | Unknown
}
