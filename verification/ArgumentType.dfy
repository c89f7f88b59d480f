/** The argument type an Argument delegates to. Its value coercion is not part of this model: the type
    is an abstract record of what Argument reads from it, and its parse step is a parameter. */
module ArgumentTypes {
  import opened Wrappers
  import opened Errors

  /** What an argument type exposes to its Argument.
      - maxValues: the upper bound of `getNumberOfArgValues()`;
      - tokenIndex: the token index set before each parse, for error attribution;
      - displayErrors / exitErrors: its errors filtered by the display and exit thresholds;
      - hasExitErrors / hasDisplayErrors: its own answer to the two queries;
      - finalValue: `getFinalValue()`, absent when nothing was produced;
      - minDisplayLevel / minExitLevel: the two thresholds. */
  datatype ArgumentType<V> = ArgumentType(
    maxValues: nat,
    tokenIndex: int,
    displayErrors: seq<CustomError>,
    exitErrors: seq<CustomError>,
    hasExitErrors: bool,
    hasDisplayErrors: bool,
    finalValue: Option<V>,
    minDisplayLevel: ErrorLevel,
    minExitLevel: ErrorLevel)

  /** `parseArgumentValues`: the type's state after parsing the given raw values. */
  type TypeParser<!V> = (ArgumentType<V>, seq<string>) -> ArgumentType<V>
}
