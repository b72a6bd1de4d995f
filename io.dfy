/**
 * Outcomes of the file-system calls the pipeline makes (directory creation,
 * file reads and writes). The calls themselves are not modelled: each of them
 * enters the model as one of these values.
 */
module Io {

  /** Whatever the file system reported; the model never looks inside. */
  datatype IoError = IoError(description: string)

  /** The outcome of an I/O call that returns nothing on success. */
  datatype IoOutcome = Done | Failed(error: IoError)
}
