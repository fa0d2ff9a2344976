/** The outcome of validating a configuration: a flag and, when invalid, why. */
module Validation {

  datatype ValidationResult = ValidationResult(valid: bool, reason: string)
}
