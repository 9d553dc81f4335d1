/** The failures the converter can raise, and the result types that carry them. */
module Errors {

  /** IndexError: a bit read or write outside the available data or fragment width.
      InvalidMode: a table-of-contents entry whose frame type lies in the reserved
      region between the last speech/SID mode and the no-data mode.
      WrongChannelCount: the channel count given to the converter is outside 1..6. */
  datatype Error = IndexError | InvalidMode(mode: nat) | WrongChannelCount

  datatype Result<+T> = Ok(value: T) | Err(error: Error)

  datatype Outcome = Pass | Fail(error: Error)
}
