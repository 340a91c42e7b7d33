# FlagMod parsing engine in Dafny

FlagMod is a header-only C++ command-line parser. A program builds a
`Flags` object from `argc`/`argv` and declares its handles with the
following calls:

- `flag("h,help", ...)` declares a switch.
- `option<T>` / `option_required<T>` declare options with a value.
- `positional<T>("label")` declares a positional argument.

It then calls `parse(handles...)`. That call scans the token list once,
writing the text each handle receives into the handle's value slot. It
then converts every slot into its typed result and returns a tuple, or
throws `InvalidFlagSpec`, `RequiredFlagNotGiven` or `InvalidArgument`.

This project models that engine and proves what it does.

- **Data.** The heterogeneous template pack is a `seq<Decl>`. `Decl` is
  a flag, an option (required or not, with its default) or a positional.
  The tuple elements form the `Out` datatype. The three exceptions are
  values of the `Error` datatype.
- **Schemas.** `Declarations.GetFlagNames` turns a schema string into an
  optional long name and an optional short character.
- **Matching.** `option_present`, `flag_present` and `set_positional`
  are pure functions over the slots in `Matching`. Their lemmas pin down
  which tokens match, pack order, first match, and which tokens are
  dropped.
- **Scanning.** `Matching.Step` and `Matching.ScanFrom` are the scan as
  a function. The class `FlagMod.Flags` carries the token list and the
  help records. Its `Parse` method copies the handles into an array of
  slots, and `ScanAll` runs the `parse` token loop over them (advancing
  by two when an option takes the next token), writing into the slots in
  place. Both are proved equal to the functional scan, and `Parse` to the
  scan followed by binding.
- **Binding.** `parse_flag` is `Binding.BindDecl`. The tuple is
  `Binding.BindAll`: results in pack order, and the first error wins.
- **Conversion.** `lexical_conversion` for `std::string`, `char`, the
  six integer types (through a model of `std::from_chars`) and
  `std::vector<T>` is `LexicalConversion.Convert`. The vector overload's
  loop is also written as the method `ConvertList`, proved to agree
  with it. Rendering values back to text (`Show`) gives the round trip.
- **OpType.** The `OpType` converter of examples/math.cpp is in
  `OpTypes`.
- **Examples.** `Scenarios` runs the declarations of examples/math.cpp,
  examples/rainbow.cpp and src/main.cpp on their token lists. In the
  examples/math.cpp scenarios the operator is an `OpType` and the two
  numbers are parameters, so they cover every operator and every `int`,
  negative ones included.

Behaviour the model follows from the code (include/flags.hpp) rather than
from what the API seems to promise:

- `--opt=val` and `-oVAL` do not give an option a value. An option
  matches only the whole token, so `chr_idx` is the token's length. The
  `'='` branch at include/flags.hpp:212 is therefore never taken for a
  token with one or two leading dashes (`Matching.OptionTakesNext`).
  With three or more dashes, `chr_idx` falls inside the token. The
  character there is rarely `'='`, so such a token matches its option
  but takes no value, and the next token is not consumed
  (`Matching.DashedOptionStep`).
- Duplicate names are not detected. A default is not validated when it
  is declared.
- `char` conversion takes the first character. Integer conversion
  ignores whatever follows the digits.
- The trailing-comma error at include/flags.hpp:77 is unreachable
  (`Declarations.GetFlagNames` never returns it).
- A required option with a default returns the stored default without
  converting it.
- A positional's conversion error escapes unwrapped. `parse_flag` for
  positionals does not catch it.

Two cases are undefined behaviour in the C++. The model resolves them as
follows:

- An option token that is the last argument reads `str[chr_idx]` one
  past the end (include/flags.hpp:212). The model reads it as "not `'='`",
  so the slot is unchanged.
- `remove_prefix(npos)` on an all-dash token such as `--`
  (include/flags.hpp:98, 126) is taken to leave an empty name.

`long` and `unsigned long` are 64 bits wide, as on LP64 targets.

## Model

| member | source | states |
|---|---|---|
| OpTypes.ConvertOp | examples/math.cpp:9-18 | empty input fails with NoOperation; success exactly when the first character is one of `+-*/`, and then the operation's symbol is that character; any other first character fails with UnknownOperation |
| OpTypes.SymbolRoundTrip | examples/math.cpp:11-17 | each operation's symbol, followed by anything, converts back to that operation |
| OpTypes.SymbolInjective | examples/math.cpp:12-15 | no two operations share a symbol |
| LexicalConversion.StringIdentity | include/lexical_conversion.hpp:24 | std::string conversion never fails and returns the input text |
| LexicalConversion.CharFirst | include/lexical_conversion.hpp:25-28 | char conversion fails exactly on empty input; otherwise it is the first character and ignores the rest |
| LexicalConversion.FromChars | include/lexical_conversion.hpp:54-60 | a success lies within the type's range; a failure is "not a number" (naming the input) or "too big"; the result is "not a number" exactly when the input is empty, starts with neither a digit nor (for signed types) '-', or is a signed '-' not followed by a digit |
| LexicalConversion.Magnitude | include/lexical_conversion.hpp:56 | a leading number exists exactly when the text starts with a digit, and its value is non-negative |
| LexicalConversion.RangeChecked | include/lexical_conversion.hpp:57-59 | success exactly when the value fits the width, returning it unchanged; otherwise "too big", never truncation |
| LexicalConversion.FromCharsUnsigned | include/lexical_conversion.hpp:56-59 | a run of digits whose decimal value is m, followed by anything not starting with a digit, converts to m when m fits the type and to "too big" otherwise |
| LexicalConversion.FromCharsSigned | include/lexical_conversion.hpp:56-59 | for signed types, '-' then a run of digits of value m, followed by anything not starting with a digit, converts to -m when it fits and to "too big" otherwise |
| LexicalConversion.FromCharsOfShown | include/lexical_conversion.hpp:56-59 | the decimal rendering of any integer (non-negative for unsigned types), with trailing non-digits, reads back as that integer when it fits the type and as "too big" otherwise; a negative rendering on an unsigned type is "not a number" by FromChars |
| LexicalConversion.SplitFrom | include/lexical_conversion.hpp:34-47 | the list loop always produces at least one segment |
| LexicalConversion.SplitCommaFree | include/lexical_conversion.hpp:36-37 | every segment is cut at a comma, so none contains one |
| LexicalConversion.SplitCount | include/lexical_conversion.hpp:35-46 | there is one segment per comma plus one |
| LexicalConversion.JoinSplit | include/lexical_conversion.hpp:35-46 | joining the segments with commas gives back the text |
| LexicalConversion.JoinAppend | include/lexical_conversion.hpp:35-46 | joining two non-empty runs of segments is joining each, with one comma between |
| LexicalConversion.SplitJoin | include/lexical_conversion.hpp:35-46 | splitting the comma-join of non-empty comma-free parts gives back the parts |
| LexicalConversion.ConvertSegmentsSuccess | include/lexical_conversion.hpp:38-40 | a successful list holds one element per segment, each the conversion of its segment, in order |
| LexicalConversion.ConvertSegmentsFailure | include/lexical_conversion.hpp:42-44 | a list conversion fails exactly when some segment fails, with the first failing segment's error wrapped with that segment's text; no partial list is returned |
| LexicalConversion.ConvertTyped | include/lexical_conversion.hpp:24-68 | every successful conversion yields a value of the requested type, integers within their width |
| LexicalConversion.ListConverts | include/lexical_conversion.hpp:34-49 | when every comma-separated segment converts, the list succeeds with one element per segment, element j being the conversion of segment j |
| LexicalConversion.ListFails | include/lexical_conversion.hpp:38-44 | when segment j fails and every earlier segment converts, the list fails with segment j's text and segment j's error, whatever follows it |
| LexicalConversion.CutConverts | include/lexical_conversion.hpp:36-45 | a segment cut at a comma or at the end that converts extends the converted prefix by its value |
| LexicalConversion.CutFails | include/lexical_conversion.hpp:36-44 | a segment cut at a comma or at the end that fails is the error of the whole list, whatever follows it |
| LexicalConversion.ConvertList | include/lexical_conversion.hpp:31-50 | the `for` loop over the indices, cutting at each comma and at the end, returns exactly the list conversion |
| LexicalConversion.ConvertShow | include/lexical_conversion.hpp:24-59 | conversion inverts rendering for every in-range value (lists non-empty with comma-free elements) |
| LexicalConversion.ListShape | include/lexical_conversion.hpp:34-49 | a converted list has commas-plus-one elements, each the conversion of the matching segment |
| LexicalConversion.LeadingEmptySegmentFails | include/lexical_conversion.hpp:35-39 | for an element type rejecting "", empty input and a leading comma fail on the empty first segment |
| LexicalConversion.TrailingEmptySegmentFails | include/lexical_conversion.hpp:35-39 | for an element type rejecting "", any comma-join of comma-free converting parts followed by a trailing comma fails on the empty last segment |
| LexicalConversion.SplitDoubledComma | include/lexical_conversion.hpp:35-37 | the comma-join of comma-free parts, then ",,", then any text b is cut into those parts, an empty segment, then the segments of b |
| LexicalConversion.DoubledCommaFails | include/lexical_conversion.hpp:35-39 | for an element type rejecting "", any comma-join of comma-free converting parts followed by ",," fails on the empty segment between the commas, whatever follows |
| LexicalConversion.Split | include/lexical_conversion.hpp:35-46 | the segments the vector overload's loop cuts, specified by SplitFrom, SplitCommaFree, SplitCount, JoinSplit and SplitJoin: comma-free pieces, one more than the commas, that join back to the input |
| LexicalConversion.ConvertSegments | include/lexical_conversion.hpp:38-44 | the loop body over the segments, specified by ConvertSegmentsSuccess and ConvertSegmentsFailure: every segment's value in order, or the first failing segment's error wrapped with its text |
| LexicalConversion.ConvertIntDigits | include/lexical_conversion.hpp:54-68 | an integer conversion of a run of digits of value m followed by anything not starting with a digit is m when m fits the type and "too big" otherwise, ignoring what follows |
| LexicalConversion.ConvertIntNegative | include/lexical_conversion.hpp:54-68 | for signed types, '-' and a run of digits of value m, followed by anything not starting with a digit, convert to -m when it fits and to "too big" otherwise |
| LexicalConversion.ConvertIntNotANumber | include/lexical_conversion.hpp:54-68 | an integer conversion fails with "not a number" naming the input exactly when the input is empty, starts with neither a digit nor (signed types) '-', or is a '-' not followed by a digit |
| LexicalConversion.ConvertOpFirst | examples/math.cpp:9-18 | the `OpType` conversion looks only at the first character: empty fails with NoOperation, one of `+-*/` is the operation with that symbol, anything else fails with UnknownOperation, whatever follows |
| LexicalConversion.Convert | include/lexical_conversion.hpp:24-71 | the `lexical_conversion` overload chosen by the type, specified by StringIdentity, CharFirst, FromChars, ConvertIntDigits, ConvertIntNegative, ConvertIntNotANumber, ConvertOpFirst, ListConverts, ListFails, ConvertTyped and ConvertShow |
| Declarations.GetFlagNames | include/flags.hpp:56-81 | a success is a valid name pair; a failure is InvalidFlagSpec and never the trailing-comma error |
| Declarations.SchemaWithoutComma | include/flags.hpp:58-63 | without a comma: empty is rejected, one character is a short name only, longer is a long name only |
| Declarations.SchemaWithComma | include/flags.hpp:65-77 | split at the first comma: two short or two long sides are rejected, otherwise the one-character side is the short name and the other (possibly empty) the long name |
| Declarations.SchemaOrderInsensitive | include/flags.hpp:65-76 | `a,b` and `b,a` give the same result |
| Declarations.RenderRoundTrip | include/flags.hpp:56-81 | every name pair get_flag_names can produce is produced from its rendering |
| Matching.Stripped | include/flags.hpp:98 | a "--" token loses its whole leading run of dashes, so what is left is empty or starts with something else; any other token is compared unchanged |
| Matching.StrippedSuffix | include/flags.hpp:98 | what the tests compare is a suffix of the token; for a "--" token at least two characters shorter; every character removed is a dash |
| Matching.OptionMatchShape | include/flags.hpp:96-103 | an option matches only "-c" for its short name c (never a dash), or "--" plus dashes plus exactly its long name; the returned index is within the token |
| Matching.LongOptionMatches | include/flags.hpp:98-99 | "--name" matches the option called name, with index length + 2 |
| Matching.DashedLongOptionMatches | include/flags.hpp:98-99 | any run of two or more dashes followed by the long name matches the option called name, with index length + 2 |
| Matching.ShortOptionMatches | include/flags.hpp:101-102 | "-c" matches the option with short name c, with index 2 |
| Matching.NoEqualsValue | include/flags.hpp:98-99 | "--name=value" never matches the option called name |
| Matching.NoAttachedShortValue | include/flags.hpp:101-102 | "-cVALUE" never matches any option |
| Matching.OptionMatch | include/flags.hpp:96-102 | one option against a token, specified by OptionMatchShape, LongOptionMatches, DashedLongOptionMatches, ShortOptionMatches, NoEqualsValue and NoAttachedShortValue |
| Matching.OptionPresent | include/flags.hpp:95-107 | a hit names an option handle at or after the start that matches the token, with its match index |
| Matching.OptionPresentFirst | include/flags.hpp:95-107 | no hit exactly when no option matches; a hit is the first matching option in pack order |
| Matching.FlagMatchShape | include/flags.hpp:123-137 | a short hit is a single-dash token containing the character anywhere; a long hit is "--" plus exactly the long name |
| Matching.FlagMatch | include/flags.hpp:126-130 | one flag against a token, specified by FlagMatchShape: a long hit exactly for "--" plus the long name, a short hit exactly for a single-dash token holding the short character |
| Matching.SwitchOn | include/flags.hpp:127 | the flag is set to true and every other slot is unchanged |
| Matching.TurnOnFlagsFound | include/flags.hpp:123-137 | a switch is reported exactly when some flag is hit; otherwise nothing changes; only flags change, only to on |
| Matching.ShortFlagsAllOn | include/flags.hpp:130-132 | a token not starting with "--" switches on every flag whose short name it contains, and only those |
| Matching.LongFlagOn | include/flags.hpp:126-128 | a "--name" token switches on the first flag whose long name is name, reports a switch, and changes no other slot |
| Matching.LongFlagAbsent | include/flags.hpp:126-137 | a "--name" token when no flag is called name switches nothing on and reports no switch |
| Matching.TurnOnFlags | include/flags.hpp:123-137 | flag_present over the pack, specified by TurnOnFlagsFound, ShortFlagsAllOn, LongFlagOn and LongFlagAbsent; its result keeps the number of slots |
| Matching.SetPositionalFirst | include/flags.hpp:147-155 | the first positional with an empty slot takes the token and nothing else changes |
| Matching.SetPositionalNone | include/flags.hpp:147-155 | with every positional filled, the token is dropped |
| Matching.SetPositional | include/flags.hpp:147-155 | set_positional over the pack, specified by SetPositionalFirst and SetPositionalNone; its result keeps the number of slots |
| Matching.SetValue | include/flags.hpp:209-213 | the option slot holds the new text (overwriting any earlier one), keeps its declaration, and other slots are unchanged |
| Matching.Step | include/flags.hpp:203-223 | each turn uses one or two tokens and never runs past the list |
| Matching.MatchEndsToken | include/flags.hpp:205-212 | a match on a token with at most two leading dashes ends at the end of the token |
| Matching.OptionTakesNext | include/flags.hpp:205-215 | a matched option takes the next token as its value and skips it, or at the end of the list changes nothing; the token reaches no flag or positional |
| Matching.PlainTokenStep | include/flags.hpp:203-223 | a token not starting with a dash is neither an option nor a flag, and goes to the first empty positional |
| Matching.UnmatchedTokenStep | include/flags.hpp:203-223 | a token that matches no option and hits no flag is given to set_positional and uses up one token |
| Matching.FlagTokenStep | include/flags.hpp:203-223 | a token that matches no option but hits a flag goes to flag_present alone: the flags are switched on, one token is used, and no positional or option slot changes |
| Matching.DashedOptionStep | include/flags.hpp:205-215 | with three or more leading dashes a matching option's index lies inside the token; an '=' there gives the rest of the token as the value, anything else leaves the slots unchanged; one token is used |
| Matching.DashedMatchInside | include/flags.hpp:96-99 | with three or more leading dashes, a match's index lies inside the token |
| Matching.StepConforms | include/flags.hpp:202-224 | one turn keeps every handle's kind, names, type and default, and flags stay on |
| Matching.ScanConforms | include/flags.hpp:202-224 | the whole scan keeps the declarations, flags only going from off to on |
| Matching.ScanFrom | include/flags.hpp:202-224 | the `parse` token loop from an index, specified by ScanStep, the per-token lemmas (OptionTakesNext, DashedOptionStep, FlagTokenStep, UnmatchedTokenStep, PlainTokenStep), ScanConforms, PositionalsInOrder and the scenarios; it keeps the number of slots |
| Matching.PositionalsInOrder | include/flags.hpp:219-223 | with positionals only, the tokens fill them in pack order and the surplus is dropped |
| Binding.BindDeclFits | include/flags.hpp:157-187 | each result has the handle's C++ type: bool, T when required or positional, optional T otherwise |
| Binding.BindDeclFailure | include/flags.hpp:162-187 | binding fails only for a required option with neither value nor default (naming its long name), an unfilled positional (naming its label), or text that does not convert (an option's error carrying the text, its name and the conversion error; a positional's the conversion error alone) |
| Binding.BindUnsetOption | include/flags.hpp:163-171 | an option no token gave a value fails naming its long name exactly when it is required without a default, returns its default exactly when it is required with one, and returns an empty optional exactly when it is optional |
| Binding.BindGivenOption | include/flags.hpp:172-178 | once a token gave an option its text the default plays no part: when the text converts the result is its conversion, bare when required and in an optional otherwise; when it does not, both forms fail with InvalidArgument carrying the text, the long name and the conversion error |
| Binding.BindPositional | include/flags.hpp:181-187 | a positional fails naming its label exactly when no token filled it; given text, the result is the bare conversion of the text, or InvalidArgument carrying the conversion error alone |
| Binding.BindDecl | include/flags.hpp:157-187 | parse_flag, specified by BindDeclFits, BindDeclFailure, BindUnsetOption, BindGivenOption, BindPositional and BindShown |
| Binding.BindShown | include/flags.hpp:173-174 | an option given the rendering of a value returns that value, whatever its default |
| Binding.BindAllSuccess | include/flags.hpp:226 | a successful tuple has one result per handle, each that handle's binding |
| Binding.BindAllFailure | include/flags.hpp:226 | the tuple fails exactly when some handle fails, with the error of the first one in pack order |
| Binding.BindAll | include/flags.hpp:226 | the tuple of parse_flag results, specified by BindAllSuccess and BindAllFailure |
| Binding.ParseFits | include/flags.hpp:200-226 | a successful parse returns one result per handle, each of its handle's type |
| Binding.ParseResult | include/flags.hpp:200-226 | parse as the scan from the first token followed by binding in pack order, specified by ParseFits, the ScanFrom lemmas, the BindDecl lemmas, BindAllSuccess, BindAllFailure, FlagMod.Flags.Parse and the scenarios |
| FlagMod.Flags.constructor | include/flags.hpp:190-196 | the token list is argv after argv[0], in order; argv[0] is the executable name; no help is recorded |
| FlagMod.Flags.Flag | include/flags.hpp:278-283 | an invalid schema raises its error and records nothing; otherwise a switch that is off, with its help appended |
| FlagMod.Flags.Option | include/flags.hpp:258-264 | an optional option with no default and no value, with its help appended |
| FlagMod.Flags.OptionRequired | include/flags.hpp:265-276 | a required option keeping its default unchanged, with its help and default appended |
| FlagMod.Flags.Positional | include/flags.hpp:285-289 | an empty positional slot with its label recorded |
| FlagMod.Flags.FlagPresent | include/flags.hpp:123-137 | switching flags on in the slot array in place gives the slots and answer of flag_present |
| FlagMod.Flags.SetPositional | include/flags.hpp:147-155 | filling the first empty positional in the slot array in place agrees with set_positional |
| FlagMod.Flags.ScanToken | include/flags.hpp:203-223 | one turn of the loop body on the slot array gives the new slots and the index advance of one step |
| FlagMod.Flags.ScanAll | include/flags.hpp:202-224 | the token loop over the slot array leaves the slots exactly as the functional scan from the first token |
| FlagMod.Flags.Parse | include/flags.hpp:200-226 | on slots copied from the handles, the token loop and then binding return the result of scanning from the first token and binding in order, so every call rescans and changes neither the handles nor the object |
| Scenarios.MathSchemas | examples/math.cpp:25-26 | "h,help" and "o,operator" declare the long and short names they spell |
| Scenarios.MathScan | examples/math.cpp:26-36 | "-o x a b" on the examples/math.cpp handles gives the operator x and the positionals a and b, for any x and any a, b that do not name the operator option |
| Scenarios.SmallInts | include/lexical_conversion.hpp:56-59 | "2", "5" and "7" convert to 2, 5 and 7 |
| Scenarios.MathParse | examples/math.cpp:26-36 | with the `OpType` operator, "-o" followed by any operation's symbol and any two `int` values written in decimal parses to that operation and those two numbers, negative ones included |
| Scenarios.HelpGiven | examples/math.cpp:30 | "-h" turns the help switch on |
| Scenarios.OperatorDefault | examples/math.cpp:26-36 | without "-o", the operator is its default Plus and the two numbers are those written, for any two `int` values |
| Scenarios.OperatorMissing | include/flags.hpp:165 | a required option with neither value nor default fails naming its long name |
| Scenarios.TextMissing | examples/rainbow.cpp:9-17 | the rainbow text positional with no token fails naming its label |
| Scenarios.LastValueWins | include/flags.hpp:205-215 | a repeated option keeps the last value given |
| Scenarios.CombinedShortFlags | src/main.cpp:13-14 | "-ht" switches on both the h and the t flag |
| Scenarios.NumeralNotOperator | include/flags.hpp:96-102 | the decimal rendering of any integer, negative ones included, never matches the operator option, so it reaches the positionals |
| Scenarios.IntList | include/lexical_conversion.hpp:34-49 | three integers written with commas between them convert to the list of the three |
| Scenarios.IntListDoubledComma | include/lexical_conversion.hpp:35-44 | "1,,3" fails on its empty middle segment |

## Left out

- include/help.hpp is not part of this model. This covers usage and help
  layout, the `fmt::formatter` for optionals, and `format_flag_help`.
  Help text is kept only as the records the declaration methods append.
- The catch blocks of `parse` (include/flags.hpp:228-241) print to stderr
  and rethrow. Failures are returned as `Error` values instead.
- Error messages are represented by their kind plus the offending text,
  name or label, not by their exact `fmt::format` wording.
- The `name` / `version` setters and `print_help` (include/flags.hpp:244-256)
  only set or print help text.
- The float, double and long double conversions
  (include/lexical_conversion.hpp:69-71) are not modelled, because they are
  floating point.
- `to_string` rendering of a default for help (include/flags.hpp:269-274)
  is not modelled. `OptionHelp` keeps the default as a value.
- The `lexically_convertible` and `stringifiable` concepts are
  compile-time checks. The element type is the `ValueType` datatype.
- FlagMod.Flags.constructor: takes argv as a `seq<string>`. It does not
  model reading C strings through `char **`.
- FlagMod.Flags.OptionRequired: requires the default to have the option's
  type, which C++ enforces through `std::optional<T>`. The default in
  examples/math.cpp is written as the text "+", and the scenarios take it
  as the operator Plus.
- Matching.Step: the case where an option is the last token is a choice
  made for undefined behaviour (see above), not the source's guaranteed
  behaviour.
- Strings are sequences of characters, while the C++ works on bytes
  (`std::string_view`). The model agrees with the source on text of
  single-byte (ASCII) characters only.
- Some cited lines do not compile as written: include/flags.hpp:99 calls
  `.size()` on an optional, include/flags.hpp:101 compares a
  `string_view` with a `char`, include/flags.hpp:174 and :184 call
  `lexical_conversion<T>` with one argument, and
  include/lexical_conversion.hpp:39 passes a `T*` where a
  `lexical_type<T>` is expected. The model reads each by its evident
  intent: the long name's length, comparison with the one-character
  string, and the overload for `T`.
- `main` in examples/math.cpp, examples/rainbow.cpp and src/main.cpp is
  arithmetic and console output. Only its declarations and token lists
  appear, as scenarios.
