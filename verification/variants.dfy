/** The two readings of an operation with a finding against it. */
module Variants {
  /** `AsWritten` does what the source does; `Corrected` does what it evidently
      means to do. Each operation's doc comment says where the two differ. */
  datatype Variant = AsWritten | Corrected
}
