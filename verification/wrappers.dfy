/** Failure-carrying datatypes shared by every stage of the model, and the
    exceptions the espeak backend raises, as values. */
module Wrappers {

  /** Python's `None` versus a present value. */
  datatype Option<+T> = None | Some(value: T)

  /** A value or the exception that the backend would have raised instead. */
  datatype Result<+T, +E> = Success(value: T) | Failure(error: E)

  /** The exceptions raised by the post-processing core of the espeak backend. */
  datatype Error =
      /** `RuntimeError`: the `language_switch` argument is not a known policy. */
    | InvalidLanguageSwitch(value: string)
      /** `ValueError`: a SAMPA mapping line (0-based index) is not two tokens. */
    | BadSampaLine(index: nat, line: string)
      /** `IndexError`: an alignment segment of input line `lineNumber` is malformed. */
    | AlignmentIndexError(lineNumber: nat, segment: string)
}
