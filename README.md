# cpp-argparse, modelled in Dafny

cpp-argparse is a small C++ command-line parser. The caller declares
elements: a destination variable, an identifier or name, and a few options.
The parser then reads a list of words, writes each value into its
destination and reports the first problem it meets. The repository holds
two independent engines, and both are modelled here.

- **Engine A** (`include/argparse.hpp`, `src/argparse.cpp`).
  - Three `add` overloads record an element and its identifier.
  - An identifier is a positional label or a set of '|'-separated flag aliases.
  - `parse` is `const`. It makes one forward pass over the words.
  - At the end it reports the first element that has no value and no default.
- **Engine B** (`include/argparse2.hpp`).
  - `add` declares a named flag (with an optional one-character short name) or a positional.
  - Each element has one of six field kinds: `String`, `StringOpt`, `StringList`, `Int`, `IntOpt` or `Boolean`.
  - `add_subcommand` declares a subcommand name.
  - `parse` scans the words. It raises each element's `mutable is_set` flag and may stop at a subcommand.
  - A second pass then fills in defaults, clears lists and reports missing values.

## How it is modelled

- **Destinations.** The caller's variables are a `Memory` object, a map
  from addresses (`Cell`) to values. Each element keeps the address of its
  destination, as the C++ keeps a pointer. A `parse` method `modifies` that
  memory, and engine B's `parse` also modifies its own parser.
- **Specification functions.** Every operation has a function that
  specifies it, for example `ArgParse.RegisterIdentifier`, `ArgParse.ParseRun`,
  `ArgParse2.Add` and `ArgParse2.ParseRun`. A loop is specified by a
  tail-recursive function (`Scan`, `PostScan`, `RegisterAliases`), and one
  turn of it by a non-recursive step function (`ScanStep`).
- **Classes.** Each engine's `Parser` is a `class` whose methods keep the
  C++ loops. Each method is proved equal to its function through the loop
  invariant "the function applied to the current state still equals its
  value on the initial state".
- **Where the properties live.** They are proved about the functions, in
  `ArgParseProps` and `ArgParse2Props`.
- **Library behaviour.** The C++ library behaviour the engines rely on is
  in `CText`:
  - `<cctype>` in the "C" locale;
  - `std::string::operator[]` at `size()` giving '\0';
  - `find`, `substr`;
  - `std::stoi`, which skips white space, reads a sign and the longest digit run, and checks the 32-bit range.
- **`std::stod`.** Its floating-point behaviour is not modelled. It is a
  parameter `stod` of engine A's parse.
- **Layout.** The files are `common.dfy`, `ctext.dfy`, `argparse.dfy`,
  `argparse_props.dfy`, `argparse_parser.dfy`, `argparse2.dfy`,
  `argparse2_props.dfy` and `argparse2_parser.dfy`.

### Behaviour kept exactly as the code has it

The code is modelled as written, and each of these quirks is stated by a lemma.

- **A: aliases past the first run on.** `add_identifier` passes the
  absolute position of the next '|' to `substr` as a *length*
  (`src/argparse.cpp:159`). From the second alias on, an alias can run past
  the next '|'. So `"-a|-b|-c"` registers `-a`, `-b|-c` and `-c`, and never
  `-b` (`ThreeAliasRegistration`).
- **A: a reserved name may hide in a middle alias.** The `-h`/`--help`
  check sees each part as the loop reads it. A middle `-h` is read together
  with the '|' and the last alias, so `"--foo|-h|-b"` is accepted and
  registers `--foo`, `-h|-b` and `-b` (`ReservedAliasEscapes`).
- **A: the short-alias check.** It refuses an alias only when its size is
  not 2 *and* its second character is not a letter
  (`src/argparse.cpp:170`). So `-ab` and `-1` are accepted
  (`ShortAliasQuirks`).
- **A: a refused alias leaves the earlier ones behind.** When an alias is
  refused, the aliases before it stay registered under the index the element
  never got (`FlagRegistration`). That index is the one the next element
  added gets, so a later successful `add` silently receives the leftover
  aliases: after `"-a|-h"` is refused, `-a` names the next element
  (`LeftoverAliasBindsNext`).
- **A: where a string list stops.** A string list stops at a word starting
  with '-' only when it was reached through a flag; a positional list takes
  every remaining word (`ListValues`).
- **B: short flags.** A short flag `-x` is looked up in `long_flags` under
  the key `"-x"`, and `short_flags` is never read (`include/argparse2.hpp:197`).
  So a flag declared with short name 'x' is not reachable as `-x`
  (`ShortFlagLookup`).
- **B: a plain `Boolean` flag.** It writes true but never raises `is_set`,
  so the pass after the scan writes false again. Every successful parse
  leaves it false (`PlainBooleanEndsFalse`).
- **B: a `require_value` Boolean.** Its value word is consumed and
  dropped, and `is_set` is never raised, so every `parse` fails. When the
  scan itself succeeds and no earlier element is missing, the error is that
  Boolean's missing value (`RequiredBooleanAlwaysFails`).
- **B: the word that selects a `StringList` positional.** That word is not
  stored; the list holds only the words after it (`ListArgDropsSelector`,
  `ListArgExample`).
- **B: integer overflow.** Only `std::invalid_argument` is caught around
  `std::stoi`. An out-of-range integer ends the program. It is modelled as
  the error `IntegerOutOfRange`, and as `IntOutOfRange` or
  `DoubleOutOfRange` in engine A.
- **B: `emplace` keeps the first entry.** `emplace` does not overwrite, so a
  second flag with a name already taken is never reached (`FirstFlagWins`).

## Model

| member | source | states |
|---|---|---|
| Common.Find | include/argparse2.hpp:117 | the position of the first choice equal to the value, or the end exactly when the value is not among the choices |
| CText.FindChar | src/argparse.cpp:158 | the first position at or after `from` holding the character; `None` exactly when no such position exists |
| CText.Substr | src/argparse.cpp:159 | `substr(pos, count)` yields `min(count, size - pos)` characters copied from `pos`, and the whole rest for `npos` |
| CText.CharAt | src/argparse.cpp:19 | indexing a string yields its character, or '\0' at and past the end |
| CText.Stoi | src/argparse.cpp:84-92 | `stoi` reports `invalid_argument` exactly when no digit follows the white space and the optional sign |
| CText.StoiRoundTrip | include/argparse2.hpp:264-283 | every 32-bit integer printed in decimal is converted back to itself |
| CText.StoiReadsPrefix | include/argparse2.hpp:266 | `stoi` reads the numeric prefix and ignores the rest ("12abc" is 12) |
| CText.StoiSkipsSpaceAndSign | include/argparse2.hpp:266 | leading white space is skipped and a sign is read (" -7" is -7) |
| CText.StoiNeedsDigits | include/argparse2.hpp:266-270 | a word without digits ("abc", "-") is an invalid argument |
| CText.StoiOverflows | include/argparse2.hpp:266-270 | a value past 32 bits ("4294967296") is out of range, which is not caught |
| ArgParse.Parts | src/argparse.cpp:156-160 | the alias list is non-empty and starts with the part read at `begin` |
| ArgParse.NextBegin | src/argparse.cpp:158-160 | the next alias starts strictly after the current one, within the identifier |
| ArgParse.HasDefaults | src/argparse.cpp:9-12 | the initial has-value entry of every element is its `has_default` |
| ArgParse.ListEnd | src/argparse.cpp:55-66 | a list reached positionally takes every remaining word; one reached through a flag stops exactly at the first word starting with '-' |
| ArgParse.ScanStep | src/argparse.cpp:14-124 | one turn of the loop advances past at least one word and never reports a missing value |
| ArgParse.Scan | src/argparse.cpp:14-124 | the scan keeps one has-value entry per element and never reports a missing value |
| ArgParse.FirstUnset | src/argparse.cpp:126-130 | the first element without a value, or none exactly when every element has one |
| ArgParseProps.RegisteredIndices | src/argparse.cpp:146-181 | `add_identifier` keeps every existing flag; new flags map only to the new index; `args` stays or gains exactly that index |
| ArgParseProps.AliasesOnlyAdd | src/argparse.cpp:156-180 | the alias loop keeps every existing flag and maps new ones only to the new index |
| ArgParseProps.PositionalRegistration | src/argparse.cpp:148-154 | a non-dash identifier is accepted exactly when it is a label, and is then appended to `args`; otherwise `InvalidIdentifier` |
| ArgParseProps.AliasesAreParts | src/argparse.cpp:156-180 | reading aliases one at a time is the same as looping over the list of parts |
| ArgParseProps.PartsRegistration | src/argparse.cpp:156-180 | the loop registers the accepted prefix of aliases; it passes exactly when all are accepted, and otherwise raises the refusal of the first bad alias |
| ArgParseProps.PartsAccepted | src/argparse.cpp:156-180 | the accepted prefix is acceptable and exactly it is registered (proof helper) |
| ArgParseProps.PartsAcceptable | src/argparse.cpp:161-176 | every alias of the accepted prefix passes the checks and is new (proof helper) |
| ArgParseProps.PartsMapped | src/argparse.cpp:179 | the loop's flag map is the old one plus the accepted prefix mapped to the index (proof helper) |
| ArgParseProps.PartsOutcome | src/argparse.cpp:161-178 | the loop passes exactly when every alias is accepted, and otherwise raises the refusal of the first alias not accepted |
| ArgParseProps.AliasRegistration | src/argparse.cpp:156-180 | the alias loop passes exactly when every alias is valid, new and unique, and then maps each to the index |
| ArgParseProps.FlagRegistration | src/argparse.cpp:146-181 | a dashed identifier is accepted exactly when all its aliases are acceptable; on failure the earlier aliases remain mapped |
| ArgParseProps.ReservedAliasRefused | src/argparse.cpp:162-164 | a part that the alias loop reads as `-h` or `--help` makes `add_identifier` fail |
| ArgParseProps.ReservedAliasEscapes | src/argparse.cpp:156-180 | `a\|-h\|c` with `c` no longer than `a` is accepted and maps `a`, `-h\|c` and `c`: a middle `-h` escapes the reserved check |
| ArgParseProps.LeftoverAliasBindsNext | src/argparse.cpp:146-181 | `"-a\|-h"` fails with `-a` left mapped to index 0, and the positional added next at index 0 is accepted, so `-a` names it |
| ArgParseProps.NoBarBefore | src/argparse.cpp:158 | `find('|')` skips a stretch without '|' and stops at the '|' after it |
| ArgParseProps.LastAlias | src/argparse.cpp:158-160 | the last alias is the rest of the identifier |
| ArgParseProps.AliasBeforeBar | src/argparse.cpp:158-160 | the alias before a '|' is a `substr` whose length is the absolute position of that '|' |
| ArgParseProps.FirstAliasSplitCorrectly | src/argparse.cpp:158-160 | the first alias is read exactly up to the first '|' |
| ArgParseProps.TwoAliasesSplitCorrectly | src/argparse.cpp:156-180 | an identifier with one '|' splits into exactly its two aliases |
| ArgParseProps.MiddleAliasOverruns | src/argparse.cpp:159 | a middle alias swallows the '|' and the last alias when the last alias is shorter than its start position |
| ArgParseProps.SecondOfThreeAliasesOverruns | src/argparse.cpp:159 | with three aliases where the third is no longer than the first, the second alias runs to the end |
| ArgParseProps.ThreeAliasParts | src/argparse.cpp:159 | "-a\|-b\|-c" yields the parts "-a", "-b\|-c", "-c" |
| ArgParseProps.ThreeAliasRegistration | src/argparse.cpp:146-181 | "-a\|-b\|-c" is accepted and maps "-a", "-b\|-c" and "-c" to the element, never "-b" |
| ArgParseProps.ThreeAliasesRegistered | src/argparse.cpp:146-181 | an identifier read as three distinct acceptable parts registers exactly those parts on an empty parser |
| ArgParseProps.ThreeAcceptable | src/argparse.cpp:162-176 | three distinct parts that pass the checks are acceptable together (proof helper) |
| ArgParseProps.ThreeMapped | src/argparse.cpp:179 | registering three parts maps exactly them to the element (proof helper) |
| ArgParseProps.ShortAliasQuirks | src/argparse.cpp:162-173 | "-ab", "-1", "bc" and "--x" pass; "-1b", "-", "--" are invalid; "-h" is reserved; "" is invalid only under the model's '\0' reading of a character past the end (see Left out) |
| ArgParseProps.Accepted | src/argparse.cpp:156-180 | the number of leading aliases the loop accepts is at most the number of aliases |
| ArgParseProps.StepFrame | src/argparse.cpp:14-124 | one turn writes only element destinations, writes nothing when it fails, and never clears a has-value entry |
| ArgParseProps.ScanFrame | src/argparse.cpp:14-124 | the scan writes only element destinations and never clears a has-value entry |
| ArgParseProps.ParseFrame | src/argparse.cpp:5-133 | `parse` leaves every variable that is not a declared destination unchanged |
| ArgParseProps.MissingOnlyWithoutDefault | src/argparse.cpp:126-130 | a missing value is reported only for an element without a default, and never when every element has one |
| ArgParseProps.ScanPositionals | src/argparse.cpp:22-28 | from a slot equal to the word position, each non-dash word fills the next string positional, or one word too many is an extra positional |
| ArgParseProps.PositionalsInOrder | src/argparse.cpp:22-28 | the no-flag case of `PositionalsBoundInOrder`: the k-th word lands in the k-th positional, and one word more is an extra positional |
| ArgParseProps.StepSlots | src/argparse.cpp:19-44 | a flag's turn keeps `arg_i` and writes only the flag's destination; a positional turn binds slot `arg_i`, marks it, moves to the next slot and, for a string, stores the word |
| ArgParseProps.ScanSlotFrame | src/argparse.cpp:14-124 | from slot `arg_i` on, the scan writes only flag destinations and the destinations of slots not yet reached |
| ArgParseProps.SlotKept | src/argparse.cpp:14-124 | once the scan is past a slot, that slot's destination is never written again |
| ArgParseProps.ArgWordsShape | src/argparse.cpp:19-28 | the words bound to slots are non-dash, in word order, and no more than the free slots |
| ArgParseProps.SlotsHoldCons | src/argparse.cpp:22-28 | binding one word to slot `arg_i` ahead of the words bound to later slots (proof helper) |
| ArgParseProps.ScanBindsInOrder | src/argparse.cpp:14-124 | from any cursor, the k-th word the scan binds to a slot is the value of slot `arg_i + k` when it is a string, whatever flags come between |
| ArgParseProps.PositionalsBoundInOrder | src/argparse.cpp:5-133 | `parse` binds positionals in `args` order with flags interleaved: the k-th word that is neither a flag nor a flag's value is the value of `args[k]` when it is a string |
| ArgParseProps.InterleavedFlagExample | src/argparse.cpp:5-133 | "1 --x v 2" with positionals a, b and flag --x succeeds with a = "1", x = "v", b = "2" |
| ArgParseProps.ScanKeepsUnnamed | src/argparse.cpp:14-124 | the scan never writes the destination of an element that no word names |
| ArgParseProps.DefaultKept | src/argparse.cpp:5-133 | an element no word names keeps, through `parse`, what its destination held, i.e. the default `add` wrote |
| ArgParseProps.WordClassification | src/argparse.cpp:19-53 | an extra positional, an unknown flag, a bool flag (true, no value consumed) and a value flag at the end each give their own outcome; a value flag that is not a list consumes exactly the next word and stores its coercion or fails with the coercion's error |
| ArgParseProps.ListValues | src/argparse.cpp:55-66 | a positional list takes all remaining words; a flag's list takes the next word, then words up to the next dashed one |
| ArgParseProps.CoercionRules | src/argparse.cpp:68-113 | a string is accepted exactly when it is a choice (or there are none); an int exactly when `stoi` converts it; a bool exactly for "true"/"false" |
| ArgParseParser.Parser.constructor | include/argparse.hpp:164-167 | a new parser has no elements, flags or positionals |
| ArgParseParser.Parser.ValidateLabel | src/argparse.cpp:135-144 | the result is true exactly when the text is a label |
| ArgParseParser.Parser.AddIdentifier | src/argparse.cpp:146-181 | the outcome, flags and positionals are those of `RegisterIdentifier`; the elements are unchanged |
| ArgParseParser.Parser.Add | include/argparse.hpp:89-103 | a bool destination is reset to false; the registration follows `RegisterIdentifier`; on success one element with `has_default` = `is_optional` = `is_opt_field` is appended; if no recorded index was past the element count, none is afterwards, and on success every one then names an element |
| ArgParseParser.Parser.AddWithDefault | include/argparse.hpp:105-120 | the default is written, the registration follows `RegisterIdentifier`, and on success one element with a default is appended; the index bounds are kept as in `Add` |
| ArgParseParser.Parser.AddWithChoices | include/argparse.hpp:122-152 | a default outside the choices fails and changes nothing; otherwise the default is written and the element with its choices is appended on success; the index bounds are kept as in `Add` |
| ArgParseParser.Parser.Parse | src/argparse.cpp:5-133 | the outcome and destinations are those of `ParseRun` |
| ArgParseParser.Parser.ParseWord | src/argparse.cpp:15-123 | one turn of the loop does what `ScanStep` says |
| ArgParseParser.Parser.CollectList | src/argparse.cpp:55-66 | the list ends at `ListEnd` and holds the value word followed by the words up to there |
| ArgParse2.ValidateChoice | include/argparse2.hpp:112-119 | a value is valid exactly when there are no choices or it is one of them |
| ArgParse2.Emplace | include/argparse2.hpp:155-157 | an existing key keeps its entry; a new key is added |
| ArgParse2.MarkSet | include/argparse2.hpp:240 | raising `is_set` keeps the number of elements |
| ArgParse2.FirstInvalid | include/argparse2.hpp:253-261 | the first word at or after `i` that is not a valid choice, with every word before it valid |
| ArgParse2.Store | include/argparse2.hpp:235-286 | a field's store only raises `is_set` flags (never a Boolean's), never stops at a subcommand, and does not move back |
| ArgParse2.Select | include/argparse2.hpp:218-286 | selecting an element only raises `is_set` flags and consumes no word before `wi` |
| ArgParse2.RouteOf | include/argparse2.hpp:184-216 | the lookup yields an element index in range and a positional slot within `args`, and never a missing-value error |
| ArgParse2.ScanStep | include/argparse2.hpp:179-287 | one turn advances past at least one word, only raises `is_set` flags, and never reports a missing value |
| ArgParse2.LongStep | include/argparse2.hpp:184-191 | a known "--name" selects the element `long_flags` maps the name to (proof helper) |
| ArgParse2.ShortStep | include/argparse2.hpp:192-203 | a known "-x" selects the element `long_flags` maps "-x" to (proof helper) |
| ArgParse2.PositionalStep | include/argparse2.hpp:204-207 | a non-dash word with a free slot selects that slot's positional and advances the slot (proof helper) |
| ArgParse2.PositionalRoute | include/argparse2.hpp:204-207 | the lookup sends a non-dash word with a free slot to that slot (proof helper) |
| ArgParse2.Scan | include/argparse2.hpp:179-287 | the scan only raises `is_set` flags and never reports a missing value |
| ArgParse2.FallbackOf | include/argparse2.hpp:289-317 | a reset writes the element's own destination |
| ArgParse2.PostScan | include/argparse2.hpp:289-317 | the pass after the scan fails only with a missing value |
| ArgParse2.ParseRun | include/argparse2.hpp:175-320 | `parse` only raises `is_set` flags in its elements |
| ArgParse2Props.EmptyWellFormed | include/argparse2.hpp:108-110 | a new parser's registry is well formed |
| ArgParse2Props.AddKeepsWellFormed | include/argparse2.hpp:121-162 | `add` keeps the registry well formed |
| ArgParse2Props.ArgsKept | include/argparse2.hpp:150-153 | after `add`, `args` still lists every positional once, in order |
| ArgParse2Props.FlagsKept | include/argparse2.hpp:154-158 | after `add`, both flag maps still map to the first flag with each name or short character |
| ArgParse2Props.LongFlagsKept | include/argparse2.hpp:155 | `emplace` into `long_flags` keeps it mapping each name to its first flag |
| ArgParse2Props.ShortFlagsKept | include/argparse2.hpp:156-158 | `emplace` into `short_flags` keeps it mapping each character to its first flag |
| ArgParse2Props.ListRuleKept | include/argparse2.hpp:137-148 | after `add`, a string list is still the last positional and never beside a subcommand |
| ArgParse2Props.AddSubcommandKeepsWellFormed | include/argparse2.hpp:164-169 | `add_subcommand` keeps the registry well formed |
| ArgParse2Props.MarksKeepWellFormed | include/argparse2.hpp:92 | raising `is_set` flags keeps the registry well formed |
| ArgParse2Props.SameAttrsKeepArgs | include/argparse2.hpp:150-153 | the positional list depends only on names, kinds and fields |
| ArgParse2Props.SameAttrsKeepLongFlags | include/argparse2.hpp:155 | the long-flag map depends only on names, kinds and fields |
| ArgParse2Props.SameAttrsKeepShortFlags | include/argparse2.hpp:156-158 | the short-flag map depends only on names, kinds and fields |
| ArgParse2Props.SameAttrsKeepList | include/argparse2.hpp:137-148 | the string-list rule depends only on names, kinds and fields |
| ArgParse2Props.AddOutcome | include/argparse2.hpp:121-162 | `add` fails exactly when a rule is broken, adding nothing; otherwise it appends one unset element and registers its index |
| ArgParse2Props.DefaultMustBeAChoice | include/argparse2.hpp:126-135 | a String default outside its non-empty choices is refused |
| ArgParse2Props.StringListRules | include/argparse2.hpp:137-148 | no positional after a list; a list is never a flag; no list once there is a subcommand |
| ArgParse2Props.NothingAfterList | include/argparse2.hpp:137-148 | after a positional list, the next positional (and any subcommand) is refused |
| ArgParse2Props.FirstFlagWins | include/argparse2.hpp:155 | a flag declared with a taken name is never reached through `long_flags` |
| ArgParse2Props.PostScanReportsFirstMissing | include/argparse2.hpp:289-317 | the pass succeeds exactly when every element is set or may stay unset, otherwise it reports the first one that is neither |
| ArgParse2Props.PostScanValues | include/argparse2.hpp:289-317 | after a successful pass each unset element holds its fallback; set and optional destinations stay as they were |
| ArgParse2Props.PostScanLeavesOthers | include/argparse2.hpp:289-317 | the pass writes nothing but element destinations |
| ArgParse2Props.OutputsStep | include/argparse2.hpp:289-317 | the destinations from `i` on are element `i`'s plus those after it |
| ArgParse2Props.MarksOnlyFacts | include/argparse2.hpp:92 | raising `is_set` flags keeps names, kinds, fields and destinations, and never changes a Boolean |
| ArgParse2Props.StoreFrame | include/argparse2.hpp:235-286 | a store writes at most the element's own destination |
| ArgParse2Props.SelectFrame | include/argparse2.hpp:218-286 | selecting an element writes at most its own destination |
| ArgParse2Props.StepFrame | include/argparse2.hpp:179-287 | one turn writes only element destinations |
| ArgParse2Props.ScanFrame | include/argparse2.hpp:179-287 | the scan writes only element destinations |
| ArgParse2Props.ScanStops | include/argparse2.hpp:208-212 | a stop at a subcommand happens only when there are subcommands, and splits the remaining words at the subcommand |
| ArgParse2Props.ParseFrame | include/argparse2.hpp:175-320 | `parse` leaves every variable that is not a declared destination unchanged |
| ArgParse2Props.SubcommandSplit | include/argparse2.hpp:208-212 | a subcommand found by `parse` splits the words into those before it, the subcommand and `subargs` |
| ArgParse2Props.RunOfScan | include/argparse2.hpp:175-320 | what `parse` returns follows from how the scan ended (proof helper) |
| ArgParse2Props.NoSubcommandsNeverStops | include/argparse2.hpp:208-212 | without subcommands, `parse` never records a subcommand |
| ArgParse2Props.RequiredBooleanAlwaysFails | include/argparse2.hpp:284-286 | a `require_value` Boolean that starts unset makes every `parse` fail; when the scan finishes and every earlier element is set or may stay unset, the error is that Boolean's `MissingValue` |
| ArgParse2Props.PlainBooleanEndsFalse | include/argparse2.hpp:228-231 | a plain Boolean ends false after every successful `parse`, whether or not its flag was given |
| ArgParse2Props.DefaultsMaterialized | include/argparse2.hpp:289-317 | after a successful `parse`, each element left unset holds its default, an empty list or false |
| ArgParse2Props.PositionalWord | include/argparse2.hpp:204-241 | a non-dash word at a free String slot without choices is stored and marked set |
| ArgParse2Props.ScanPositionalFrame | include/argparse2.hpp:204-241 | over positional words the scan writes only the destinations of the remaining slots |
| ArgParse2Props.ScanPositionalValues | include/argparse2.hpp:204-241 | positional words fill the slots in order |
| ArgParse2Props.ScanPositionalEnd | include/argparse2.hpp:204-216 | past the last slot, the next word is the subcommand when there are subcommands, and otherwise an extra argument |
| ArgParse2Props.PositionalsInOrder | include/argparse2.hpp:204-216 | the no-flag case of `PositionalsBoundInOrder`: the k-th word is the k-th positional's value; past them the next word is the subcommand with the rest kept, or an extra argument |
| ArgParse2Props.WellFormedSlots | include/argparse2.hpp:150-158 | a registry `add` built, with distinct destinations, keeps positional slots apart from flags and from every other destination |
| ArgParse2Props.RouteFacts | include/argparse2.hpp:184-207 | a dash word goes to the element `long_flags` holds under its key and keeps `arg_index`; another word goes to slot `arg_index` and moves to the next slot |
| ArgParse2Props.StepWrites | include/argparse2.hpp:179-287 | a turn writes only the destination of the element its word is routed to and goes on at the route's slot; a refused word or a subcommand writes nothing and ends the scan |
| ArgParse2Props.StepStoresSlot | include/argparse2.hpp:204-241 | a String positional that takes its word stores it and is marked set |
| ArgParse2Props.RoutedWritable | include/argparse2.hpp:184-207 | the element a word is routed to writes a flag destination or a slot not yet passed (proof helper) |
| ArgParse2Props.WritableShrinks | include/argparse2.hpp:204-207 | moving the slot cursor on only shrinks what the scan may write (proof helper) |
| ArgParse2Props.ScanSlotFrame | include/argparse2.hpp:179-287 | from slot `arg_index` on, the scan writes only flag destinations and the destinations of slots not yet reached |
| ArgParse2Props.SlotKept | include/argparse2.hpp:179-287 | once the scan is past a slot, that slot's destination is never written again |
| ArgParse2Props.ArgWordsShape | include/argparse2.hpp:179-216 | the words bound to slots are non-dash, in word order, and no more than the free slots |
| ArgParse2Props.SlotsHoldCons | include/argparse2.hpp:204-207 | binding one word to slot `arg_index` ahead of the words bound to later slots (proof helper) |
| ArgParse2Props.FlagTurnHolds | include/argparse2.hpp:184-203 | a flag's turn leaves the bound words and the slot cursor as they were |
| ArgParse2Props.ArgTurnHolds | include/argparse2.hpp:204-241 | a positional turn binds its word to slot `arg_index`, ahead of the words bound later |
| ArgParse2Props.ScanBindsInOrder | include/argparse2.hpp:179-287 | from any cursor, the k-th word the scan binds to a slot is the value of slot `arg_index + k`, marked set, when it is a String, whatever flags come between |
| ArgParse2Props.SetSlotsSettle | include/argparse2.hpp:289-317 | the pass after the scan keeps the values of the slots the scan marked set |
| ArgParse2Props.PositionalsBoundInOrder | include/argparse2.hpp:175-320 | `parse` on a registry `add` built binds positionals in `args` order with flags interleaved: the k-th word that is neither a flag nor a flag's value is the value of `args[k]` when it is a String |
| ArgParse2Props.InterleavedFlagExample | include/argparse2.hpp:175-320 | "1 --x v 2" with positionals a, b and flag x succeeds with a = "1", x = "v", b = "2" and no subcommand |
| ArgParse2Props.LookupErrors | include/argparse2.hpp:184-216 | an unknown "--name" is `UnknownLongFlag`, a single-dash word not two characters long is `InvalidShortFlag`, an unknown "-x" is `UnknownShortFlag`, and a word past the last positional without subcommands is `ExtraArgument`; each ends the scan with nothing changed |
| ArgParse2Props.StoreErrors | include/argparse2.hpp:235-283 | a String or StringOpt value is stored exactly when it is a valid choice and is otherwise `InvalidValue`; an Int or IntOpt word is stored exactly when `stoi` converts it, and is otherwise `InvalidInteger` or the uncaught out-of-range; a failed check changes nothing |
| ArgParse2Props.ShortFlagLookup | include/argparse2.hpp:192-203 | unless an element is named "-x", the word "-x" is an unknown flag, whatever short names were declared |
| ArgParse2Props.LongFlagTakesNextWord | include/argparse2.hpp:220-241 | a value flag at the end is a missing value; otherwise exactly the next word is consumed, and a String stores it exactly when it is a valid choice |
| ArgParse2Props.ListArgDropsSelector | include/argparse2.hpp:251-263 | a positional list stores the words after the one that reached it, up to the first invalid choice, and fails there |
| ArgParse2Props.SelectArg | include/argparse2.hpp:204-207 | selecting a positional stores the word itself (proof helper) |
| ArgParse2Props.StoreList | include/argparse2.hpp:251-263 | a list store takes the words from the value position up to the first invalid choice |
| ArgParse2Props.ListArgExample | include/argparse2.hpp:251-263 | the words "a", "b" given to a list positional succeed and store only ["b"] |
| ArgParse2Props.IntRoundTrip | include/argparse2.hpp:264-283 | an Int or IntOpt element reads back any 32-bit integer written in decimal |
| ArgParse2Parser.Parser.constructor | include/argparse2.hpp:108-110 | a new parser is empty and well formed |
| ArgParse2Parser.Parser.Add | include/argparse2.hpp:121-162 | the outcome and registry are those of `ArgParse2.Add`, and the parser stays well formed |
| ArgParse2Parser.Parser.Register | include/argparse2.hpp:121-162 | the checks come before any change; the outcome and registry follow `ArgParse2.Add` |
| ArgParse2Parser.Parser.AddSubcommand | include/argparse2.hpp:164-169 | the outcome and registry follow `ArgParse2.AddSubcommand`, and the parser stays well formed |
| ArgParse2Parser.Parser.Parse | include/argparse2.hpp:175-320 | the outcome, the `is_set` flags, the destinations and the recorded subcommand are those of `ParseRun`; the parser stays well formed |
| ArgParse2Parser.Parser.ScanWords | include/argparse2.hpp:179-287 | the loop ends as `Scan` does: the same elements, destinations, error or subcommand |
| ArgParse2Parser.Parser.ParseWord | include/argparse2.hpp:180-286 | one turn of the loop does what `ScanStep` says |
| ArgParse2Parser.Parser.Lookup | include/argparse2.hpp:184-216 | the lookup's result is `RouteOf` |
| ArgParse2Parser.Parser.SelectValue | include/argparse2.hpp:218-286 | selecting the element does what `Select` says |
| ArgParse2Parser.Parser.StoreValue | include/argparse2.hpp:235-286 | storing the value does what `Store` says |
| ArgParse2Parser.Parser.CollectChoices | include/argparse2.hpp:251-263 | the list loop stops at `FirstInvalid` and leaves the words before it in the list |
| ArgParse2Parser.Parser.Settle | include/argparse2.hpp:289-317 | the pass over unset elements does what `PostScan` says |

## Left out

- The programs under `example/` are not part of this model. They only use the parsers.
- `std::stod` is a parameter of engine A's parse, because floating-point conversion is not modelled.
- Engine A, double `std::out_of_range`: it comes from that parameter as `DoubleOutOfRange`; the model does not say which words produce it.
- `std::stoi`'s `out_of_range`, which neither engine catches, ends the program. The model reports it as the errors `IntOutOfRange` (engine A) and `IntegerOutOfRange` (engine B) instead of modelling termination.
- C++ `assert`s are treated as compiled out:
  - A's `assert(!word.empty())`: an empty word reads '\0' and is positional;
  - A's `assert(!identifier.empty())` in `add_identifier`: an empty identifier reads '\0', so it is not dashed, fails the label check and is refused as `InvalidIdentifier`;
  - the `assert(false)` in the coercion visitor, which no destination type reaches;
  - B's `assert(require_value)`.
- Text printed to `std::cout` is replaced by the error value that names its message.
- The `parse(argc, argv)` overloads, which only drop the program name and wrap `argv` in a `std::span`, are not modelled. The words are a `seq<string>`.
- Engine B's `subargs_` is a `std::span` into the caller's words. The model copies the remaining words into a sequence, so aliasing with the caller's array is not captured.
- Help text and usage printing are not modelled.
- Re-parsing the subcommand's own words with another parser is the caller's business and is not modelled.
- ArgParse2Parser.Parser.Subcommand and ArgParse2Parser.Parser.Subargs: these accessors return a field and carry no contract. What they return is stated by `Parse`'s postcondition on the recorded subcommand.
- Iteration order of the `std::unordered_map`s is never observed by the code, so the maps are Dafny `map`s.
- Engine A's `add` overloads are chosen by template type at compile time. The model passes the destination type as a `Shape` value, and states the compile-time restrictions (which types take a default, which take choices) as `requires`.
- Engine A's failed `add_identifier` leaves aliases mapped to an index no element has. `parse` requires every recorded index to name an element (`Indexed`), which does not hold right after such a failure; the C++ would read past the element vector. The `add` methods keep the weaker bound `IndexedWithin` (no index past the element count) in every case, so the next successful `add` makes `Indexed` hold again, with the leftover aliases naming the new element.
- AliasError and RouteOf: strings are sequences of characters, and their sizes count characters where the C++ `size()` counts bytes. The size-2 checks (an alias at `src/argparse.cpp:170`, a short flag at `include/argparse2.hpp:193`) and every position therefore agree with the C++ only on ASCII text: "-é" is three bytes in UTF-8, so the C++ refuses it as an alias and calls it an invalid short flag, while the model accepts the alias and looks the word up. Byte encodings are not modelled.
- AliasError: an empty part (from a trailing '|', as in "-a|") makes the C++ read `part[1]` past `size()`, which is undefined behaviour. The model reads it as '\0', like the character at `size()`, so the part is refused as an invalid flag.
