/** Errors of the parser: build-time configuration errors (Java exceptions), the errors an argument
    type reports while parsing, and the per-parse error list they are appended to. */
module Errors {
  import opened Wrappers
  import opened Ids

  /** Severity of a reported error. The argument layer only stores and forwards thresholds; it never
      compares levels, so this three-level scale is illustrative and any scale would do. */
  datatype ErrorLevel = Error | Warning | Info

  /** An error produced by an argument type (a `CustomError`): what went wrong, how severe it is and
      which token it refers to. */
  datatype CustomError = CustomError(message: string, level: ErrorLevel, tokenIndex: int)

  /** The parse-time error kinds raised by the argument layer itself. */
  datatype ParseErrorType = ObligatoryArgumentNotUsed

  /** One entry of the parsing state's error list. */
  datatype ParseErrorRecord =
    | ParseError(kind: ParseErrorType, argument: ArgId, tokenIndex: int)
    | FromType(error: CustomError)

  /** The per-parse context, reduced to the error list that errors are appended to. */
  datatype ParsingState = ParsingState(errors: seq<ParseErrorRecord>)

  /** Build-time misuse, raised by Java as IllegalArgumentException or IllegalStateException. */
  datatype BuildError =
    | DuplicateName(name: string)
    | ValuelessPositional
    | NullDefaultValue
    | AlreadyInCommand
    | GroupHasParent
    | GroupAlreadyRegistered

  /** The result of an operation that may throw after it has already changed some state: `state` is
      everything changed up to the throw, and `error` is the exception, if one was thrown. */
  datatype Outcome<S> = Outcome(state: S, error: Option<BuildError>)

  /** `parseState.addError(type, argument, index)`. */
  function AddParseError(ps: ParsingState, kind: ParseErrorType, arg: ArgId, index: int): (r: ParsingState)
    ensures r.errors == ps.errors + [ParseError(kind, arg, index)]
  {
    ParsingState(ps.errors + [ParseError(kind, arg, index)])
  }

  /** `errors.forEach(parseState::addError)`: every type error is appended, in order, after the
      errors already recorded. */
  function AddCustomErrors(ps: ParsingState, es: seq<CustomError>): (r: ParsingState)
    ensures |r.errors| == |ps.errors| + |es|
    ensures r.errors[..|ps.errors|] == ps.errors
    ensures forall i :: 0 <= i < |es| ==> r.errors[|ps.errors| + i] == FromType(es[i])
    decreases |es|
  {
    if es == [] then ps
    else
      var ps1 := ParsingState(ps.errors + [FromType(es[0])]);
      var r := AddCustomErrors(ps1, es[1..]);
      assert forall j :: 0 <= j < |es[1..]| ==> r.errors[|ps1.errors| + j] == FromType(es[1..][j]);
      r
  }
}
