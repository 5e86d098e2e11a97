/** Result shapes shared by the parsers. */
module Outcomes {

  /** Ruby's `nil` or a value. */
  datatype Option<+T> = None | Some(value: T)

  /**
   * What an entry point of the parser reports: no text was given (blank input), the text does not
   * denote a value, or the value it denotes. The Ruby entry points return `nil` for both of the
   * first two; the model keeps them apart.
   */
  datatype Parsed<+T> = Absent | Failure | Success(value: T)

  /** A `nil` coming out of a fallback parser is a parse failure. */
  function FromOption<T>(o: Option<T>): Parsed<T>
  {
    match o
    case None => Failure
    case Some(v) => Success(v)
  }

  /** What a Ruby caller sees of an entry point's result: `nil` both for absent text and for a failure. */
  function ToOption<T>(p: Parsed<T>): Option<T>
  {
    match p
    case Success(v) => Some(v)
    case _ => None
  }
}
