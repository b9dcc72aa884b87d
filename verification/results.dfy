/** Failure-carrying values shared by every module of the validator model.
    The Java code signals failures with exceptions; here each exception the
    core can raise is one `Error` constructor carrying the exception message. */
module Results {

  datatype Option<+T> = None | Some(value: T) {
    /** The wrapped value, or `default` when there is none (commons-lang `defaultString`). */
    function GetOr(default: T): T {
      match this
      case Some(v) => v
      case None => default
    }
  }

  datatype Result<+T> = Ok(value: T) | Err(error: Error)

  /** Outcome of an operation that returns nothing on success (`void` in Java). */
  datatype Outcome = Pass | Fail(error: Error)

  datatype Error =
    /** `IllegalArgumentException` when the specification URL yields no stream. */
    | FileNotFound(message: string)
    /** `SpecInvalidException`: unreadable, unparsable or non-conforming specification. */
    | SpecInvalid(message: string)
    /** `IllegalArgumentException` from Jackson's `convertValue`: the tree does
        not bind to the OAS3 object model. Nothing catches it, so it leaves the
        constructor unwrapped with Jackson's message. */
    | Unconvertible(message: string)
    /** `IllegalArgumentException`: no path key matches the suffix. */
    | NoMatchingPath(message: string)
    /** `IllegalArgumentException`: the matched path has no JSON response schema. */
    | NoSchemaDefinition(message: string)
    /** `IllegalArgumentException`: discovery found no specification file. */
    | NoSpecsFound(message: string)
    /** `IllegalArgumentException`: the requested version is not registered. */
    | InvalidVersion(message: string)
    /** `ContentValidationException` caused by a JSON parse failure. */
    | MalformedJson(message: string)
    /** `ContentValidationException` listing schema violations; the findings are kept as well. */
    | SchemaViolation(findings: seq<string>, message: string)
}
