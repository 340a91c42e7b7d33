/**
 * The three exception types of include/errors.hpp, carried as values.
 * A message built with fmt::format is represented by its kind plus the
 * offending text or label it names, not by its exact wording.
 */
module Errors {
  import opened Wrappers

  /** Why get_flag_names rejected a schema string. */
  datatype SpecProblem =
    | EmptySchema      // "flag schema is empty"
    | TwoShortNames    // "flag schema can't have two short names"
    | TwoLongNames     // "flag schema can't have two long names"
    | TrailingComma    // "flag schema contains a trailing comma"

  /** The cause carried by an InvalidArgument. */
  datatype Cause =
    | EmptyInput                           // char conversion of "" (empty message)
    | NotANumber(input: string)            // from_chars found no leading number
    | TooBig                               // from_chars: out of range for the width
    | NoOperation                          // OpType conversion of ""
    | UnknownOperation                     // OpType conversion of another first character
    | InList(segment: string, inner: Cause)  // list conversion, names the failing segment
    | ForOption(input: string, name: Option<string>, inner: Cause)
                                           // rethrown by parse_flag for an option

  /** What a RequiredFlagNotGiven names. */
  datatype Missing =
    | OptionNotGiven(name: Option<string>)   // the option's long name
    | PositionalNotGiven(labelName: string)  // the positional's label

  datatype Error =
    | InvalidFlagSpec(problem: SpecProblem)
    | RequiredFlagNotGiven(missing: Missing)
    | InvalidArgument(cause: Cause)
}
