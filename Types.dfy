/** The value domain of the store (src/types.rs). */
module Types {

  /** The IEEE-754 bit pattern of an `f64`; the model never interprets it. */
  type Float64 = bv64

  /** A stored value: a number or a piece of text. */
  datatype TypedValue = Numeric(bits: Float64) | Text(text: string)
}
