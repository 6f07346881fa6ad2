/**
 * Engine B (include/argparse2.hpp): its data model and the functions that
 * specify what its operations do. The `Parser` class whose methods are proved
 * against these functions is in module ArgParse2Parser; the properties proved
 * about them are in ArgParse2Props.
 */
module ArgParse2 {
  import opened Common
  import opened CText

  /** `Type`: a flag, with an optional one-character alias ('\0' for none), or a positional. */
  datatype Kind = Flag(shortFlag: char) | Arg

  /** `Field`: the destination of an element and what it accepts. */
  datatype Field =
    | String(output: Cell, defaultValue: Option<string>, choices: seq<string>)
    | StringOpt(output: Cell, choices: seq<string>)
    | StringList(output: Cell, choices: seq<string>)
    | Int(output: Cell, defaultInt: Option<Int32>)
    | IntOpt(output: Cell)
    | Boolean(output: Cell, requireValue: bool)

  /** One declared element; `isSet` is the `mutable` flag that `parse` raises. */
  datatype Element = Element(isSet: bool, name: string, kind: Kind, field: Field)

  /** The messages of `UsageError`, raised by `add` and `add_subcommand`. */
  datatype UsageError =
    | DefaultNotAChoice(name: string)
    | ListNotLast
    | ListWithSubcommand
    | ListAsFlag

  /**
   * The diagnostics `parse` prints before returning false. `UnknownShortFlag`
   * is printed as "Unknown long flag". `IntegerOutOfRange` stands for the
   * `std::out_of_range` from `std::stoi` that `parse` does not catch: the
   * program ends instead of returning.
   */
  datatype ParseError =
    | UnknownLongFlag(word: string)
    | InvalidShortFlag(word: string)
    | UnknownShortFlag(word: string)
    | ExtraArgument(word: string)
    | MissingFlagValue(word: string)
    | InvalidValue(word: string, name: string)
    | InvalidInteger(word: string)
    | IntegerOutOfRange(word: string)
    | MissingValue(name: string)

  /** `validate_choice`: every value is valid when there are no choices, else only the choices. */
  function ValidateChoice(value: string, choices: seq<string>): (r: bool)
    ensures r <==> choices == [] || value in choices
  {
    choices == [] || Find(choices, value) != |choices|
  }

  // ---------------------------------------------------------------------
  // Declaration (Parser::add, Parser::add_subcommand)
  // ---------------------------------------------------------------------

  /** Everything `add` and `add_subcommand` build up. */
  datatype Registry = Registry(
    elements: seq<Element>,
    haveMultiArg: bool,
    longFlags: map<string, nat>,
    shortFlags: map<char, nat>,
    args: seq<nat>,
    subcommands: seq<string>)

  /** `Parser()`: nothing declared yet. */
  function EmptyRegistry(): Registry
  {
    Registry([], false, map[], map[], [], [])
  }

  /** `unordered_map::emplace`: an existing key keeps its value. */
  function Emplace<K>(m: map<K, nat>, key: K, value: nat): (r: map<K, nat>)
    ensures key in m ==> r == m
    ensures key !in m ==> r == m[key := value]
  {
    if key in m then m else m[key := value]
  }

  /** The check `add` makes before it registers anything. */
  function AddError(reg: Registry, name: string, kind: Kind, field: Field): Option<UsageError>
  {
    if field.String? && field.defaultValue.Some? && !ValidateChoice(field.defaultValue.value, field.choices) then
      Some(DefaultNotAChoice(name))
    else if reg.haveMultiArg && kind.Arg? then Some(ListNotLast)
    else if field.StringList? && reg.subcommands != [] then Some(ListWithSubcommand)
    else if field.StringList? && !kind.Arg? then Some(ListAsFlag)
    else None
  }

  /** `add(name, kind, field)`: the outcome and the registry it leaves. */
  function Add(reg: Registry, name: string, kind: Kind, field: Field): (Outcome<UsageError>, Registry)
  {
    match AddError(reg, name, kind, field)
    case Some(e) => (Fail(e), reg)
    case None =>
      var index := |reg.elements|;
      var reg' := reg.(
        elements := reg.elements + [Element(false, name, kind, field)],
        haveMultiArg := reg.haveMultiArg || field.StringList?);
      match kind
      case Arg => (Pass, reg'.(args := reg.args + [index]))
      case Flag(c) =>
        (Pass, reg'.(
          longFlags := Emplace(reg.longFlags, name, index),
          shortFlags := if c != '\0' then Emplace(reg.shortFlags, c, index) else reg.shortFlags))
  }

  /** `add_subcommand(name)`: refused once a string list is declared. */
  function AddSubcommand(reg: Registry, name: string): (Outcome<UsageError>, Registry)
  {
    if reg.haveMultiArg then (Fail(ListWithSubcommand), reg)
    else (Pass, reg.(subcommands := reg.subcommands + [name]))
  }

  /**
   * What `add` and `add_subcommand` keep true of a registry: indices name
   * elements, `args` lists every positional in declaration order, `long_flags`
   * maps each flag name to the first flag declared with it (and `short_flags`
   * each short character likewise), `have_multi_arg` records a string list,
   * and a string list is a positional, the last one, and never beside a
   * subcommand.
   */
  ghost predicate WellFormed(reg: Registry)
  {
    && ArgsFit(reg.elements, reg.args)
    && LongFlagsFit(reg.elements, reg.longFlags)
    && ShortFlagsFit(reg.elements, reg.shortFlags)
    && ListFits(reg.elements, reg.haveMultiArg, reg.args, reg.subcommands)
  }

  /** `args` lists the positionals, each once, in declaration order. */
  ghost predicate ArgsFit(els: seq<Element>, args: seq<nat>)
  {
    && (forall k :: 0 <= k < |args| ==> args[k] < |els|)
    && (forall k, l :: 0 <= k < l < |args| ==> args[k] < args[l])
    && (forall k :: 0 <= k < |args| ==> els[args[k]].kind.Arg?)
    && (forall i :: 0 <= i < |els| && els[i].kind.Arg? ==> i in args)
  }

  /** `long_flags` maps each flag name to the first flag declared with it. */
  ghost predicate LongFlagsFit(els: seq<Element>, longFlags: map<string, nat>)
  {
    && (forall f :: f in longFlags ==> longFlags[f] < |els|)
    && (forall f :: f in longFlags ==> els[longFlags[f]].kind.Flag? && els[longFlags[f]].name == f)
    && (forall i :: 0 <= i < |els| && els[i].kind.Flag? ==> els[i].name in longFlags && longFlags[els[i].name] <= i)
  }

  /** `short_flags` maps each short character to the first flag declared with it. */
  ghost predicate ShortFlagsFit(els: seq<Element>, shortFlags: map<char, nat>)
  {
    && (forall c :: c in shortFlags ==> shortFlags[c] < |els|)
    && (forall c :: c in shortFlags ==> c != '\0' && els[shortFlags[c]].kind == Flag(c))
    && (forall i :: 0 <= i < |els| && els[i].kind.Flag? && els[i].kind.shortFlag != '\0' ==>
          els[i].kind.shortFlag in shortFlags && shortFlags[els[i].kind.shortFlag] <= i)
  }

  /** `have_multi_arg` records a string list, which is the last positional and never beside a subcommand. */
  ghost predicate ListFits(els: seq<Element>, haveMultiArg: bool, args: seq<nat>, subcommands: seq<string>)
  {
    && (haveMultiArg <==> exists i :: 0 <= i < |els| && els[i].field.StringList?)
    && (forall i :: 0 <= i < |els| && els[i].field.StringList? ==>
          els[i].kind.Arg? && |args| > 0 && args[|args| - 1] == i && subcommands == [])
  }

  // ---------------------------------------------------------------------
  // Parsing (Parser::parse)
  // ---------------------------------------------------------------------

  /** What the scan reads of a parser besides its elements (never `short_flags`). */
  datatype Schema = Schema(longFlags: map<string, nat>, args: seq<nat>, subcommands: seq<string>)

  function SchemaOf(reg: Registry): Schema
  {
    Schema(reg.longFlags, reg.args, reg.subcommands)
  }

  /** The scan position: next word, next positional slot, the elements with their `is_set`, the destinations. */
  datatype Cursor = Cursor(wordI: nat, argIndex: nat, elements: seq<Element>, cells: map<Cell, Value>)

  /** Every index the schema holds names one of `n` elements. */
  predicate Fits(s: Schema, n: nat)
  {
    && (forall f :: f in s.longFlags ==> s.longFlags[f] < n)
    && (forall k :: 0 <= k < |s.args| ==> s.args[k] < n)
  }

  predicate InScan(s: Schema, words: seq<string>, c: Cursor)
  {
    c.wordI <= |words| && c.argIndex <= |s.args| && Fits(s, |c.elements|)
  }

  /** `elements[i].is_set = true` */
  function MarkSet(elements: seq<Element>, i: nat): (r: seq<Element>)
    requires i < |elements|
    ensures |r| == |elements|
  {
    elements[i := elements[i].(isSet := true)]
  }

  /**
   * `b` is `a` with some `is_set` flags raised, never one of a Boolean
   * element: nothing else about an element changes while parsing.
   */
  predicate MarksOnly(a: seq<Element>, b: seq<Element>)
  {
    && |a| == |b|
    && forall i :: 0 <= i < |a| ==> b[i] == a[i] || (b[i] == a[i].(isSet := true) && !a[i].field.Boolean?)
  }

  /** The first word at or after `i` that is not a valid choice, or `|words|`. */
  function FirstInvalid(words: seq<string>, i: nat, choices: seq<string>): (r: nat)
    requires i <= |words|
    decreases |words| - i
    ensures i <= r <= |words|
    ensures forall k :: i <= k < r ==> ValidateChoice(words[k], choices)
    ensures r < |words| ==> !ValidateChoice(words[r], choices)
  {
    if i == |words| then i
    else if !ValidateChoice(words[i], choices) then i
    else FirstInvalid(words, i + 1, choices)
  }

  /** How one turn of the loop ends: go on, fail, or stop at a subcommand. */
  datatype Step =
    | Next(cursor: Cursor)
    | Abort(error: ParseError, elements: seq<Element>, cells: map<Cell, Value>)
    | Stop(subcommand: string, subargs: seq<string>, elements: seq<Element>, cells: map<Cell, Value>)

  /**
   * The value word `value` for element `ei`, the scan going on at `vi`: the
   * element's field check and store.
   */
  function Store(words: seq<string>, elements: seq<Element>, cells: map<Cell, Value>, ei: nat, argIndex: nat, value: string, vi: nat): (r: Step)
    requires ei < |elements| && vi <= |words|
    ensures r.Next? ==> r.cursor.wordI >= vi && r.cursor.wordI <= |words| && MarksOnly(elements, r.cursor.elements)
    ensures r.Abort? ==> MarksOnly(elements, r.elements)
    ensures !r.Stop?
  {
    var e := elements[ei];
    match e.field
    case String(out, _, choices) =>
      if !ValidateChoice(value, choices) then Abort(InvalidValue(value, e.name), elements, cells)
      else Next(Cursor(vi, argIndex, MarkSet(elements, ei), cells[out := VString(value)]))
    case StringOpt(out, choices) =>
      if !ValidateChoice(value, choices) then Abort(InvalidValue(value, e.name), elements, cells)
      else Next(Cursor(vi, argIndex, MarkSet(elements, ei), cells[out := VOptString(Some(value))]))
    case StringList(out, choices) =>
      var k := FirstInvalid(words, vi, choices);
      var els := MarkSet(elements, ei);
      var cells' := cells[out := VStringList(words[vi..k])];
      if k < |words| then Abort(InvalidValue(words[k], e.name), els, cells')
      else Next(Cursor(|words|, argIndex, els, cells'))
    case Int(out, _) =>
      (match Stoi(value)
       case Converted(n) => Next(Cursor(vi, argIndex, MarkSet(elements, ei), cells[out := VInt(n)]))
       case InvalidArgument => Abort(InvalidInteger(value), elements, cells)
       case OutOfRange => Abort(IntegerOutOfRange(value), elements, cells))
    case IntOpt(out) =>
      (match Stoi(value)
       case Converted(n) => Next(Cursor(vi, argIndex, MarkSet(elements, ei), cells[out := VOptInt(Some(n))]))
       case InvalidArgument => Abort(InvalidInteger(value), elements, cells)
       case OutOfRange => Abort(IntegerOutOfRange(value), elements, cells))
    case Boolean(_, _) =>
      Next(Cursor(vi, argIndex, elements, cells))
  }

  /**
   * Element `ei`, selected by `word`: a flag that is not a plain Boolean takes
   * the next word as its value; a plain Boolean flag writes true and, unlike
   * every other store, leaves `is_set` alone.
   */
  function Select(words: seq<string>, elements: seq<Element>, cells: map<Cell, Value>, ei: nat, argIndex: nat, word: string, wi: nat): (r: Step)
    requires ei < |elements| && wi <= |words|
    ensures r.Next? ==> r.cursor.wordI >= wi && r.cursor.wordI <= |words| && MarksOnly(elements, r.cursor.elements)
    ensures r.Abort? ==> MarksOnly(elements, r.elements)
    ensures !r.Stop?
  {
    var e := elements[ei];
    if e.kind.Flag? && e.field.Boolean? && !e.field.requireValue then
      Next(Cursor(wi, argIndex, elements, cells[e.field.output := VBool(true)]))
    else if e.kind.Flag? && wi == |words| then Abort(MissingFlagValue(word), elements, cells)
    else if e.kind.Flag? then Store(words, elements, cells, ei, argIndex, words[wi], wi + 1)
    else Store(words, elements, cells, ei, argIndex, word, wi)
  }

  /** `word[0] == '-'`; on an empty word that reads the terminating '\0'. */
  predicate StartsWithDash(word: string) { |word| > 0 && word[0] == '-' }

  /** A word starting with "--". */
  predicate IsLong(word: string) { |word| >= 2 && word[0] == '-' && word[1] == '-' }

  /** Where a word sends the scan: an element (and the next positional slot), an error, or the subcommand. */
  datatype Route = Use(ei: nat, argIndex: nat) | Refuse(error: ParseError) | ToSubcommand

  /**
   * The lookup at the head of one turn of the `parse` loop. A short "-x" is
   * looked up in `long_flags` under "-x" itself; a non-dash word past the
   * positionals is the subcommand when there are subcommands.
   */
  function RouteOf(s: Schema, n: nat, word: string, argIndex: nat): (r: Route)
    requires Fits(s, n) && argIndex <= |s.args|
    ensures r.Use? ==> r.ei < n && r.argIndex <= |s.args|
    ensures r.Refuse? ==> !r.error.MissingValue?
  {
    if IsLong(word) then
      if word[2..] !in s.longFlags then Refuse(UnknownLongFlag(word))
      else Use(s.longFlags[word[2..]], argIndex)
    else if StartsWithDash(word) then
      if |word| != 2 then Refuse(InvalidShortFlag(word))
      else if word !in s.longFlags then Refuse(UnknownShortFlag(word))
      else Use(s.longFlags[word], argIndex)
    else if argIndex < |s.args| then Use(s.args[argIndex], argIndex + 1)
    else if s.subcommands != [] then ToSubcommand
    else Refuse(ExtraArgument(word))
  }

  /** One turn of the `parse` loop: the lookup, then the element's store. */
  function ScanStep(s: Schema, words: seq<string>, c: Cursor): (r: Step)
    requires InScan(s, words, c) && c.wordI < |words|
    ensures r.Next? ==> InScan(s, words, r.cursor) && r.cursor.wordI > c.wordI && MarksOnly(c.elements, r.cursor.elements)
    ensures r.Abort? ==> MarksOnly(c.elements, r.elements) && !r.error.MissingValue?
    ensures r.Stop? ==> r.elements == c.elements
  {
    var word := words[c.wordI];
    var wi := c.wordI + 1;
    match RouteOf(s, |c.elements|, word, c.argIndex)
    case Use(ei, argIndex) => Select(words, c.elements, c.cells, ei, argIndex, word, wi)
    case Refuse(e) => Abort(e, c.elements, c.cells)
    case ToSubcommand => Stop(word, words[wi..], c.elements, c.cells)
  }

  /** The turn for a known "--name". */
  lemma LongStep(s: Schema, words: seq<string>, c: Cursor)
    requires InScan(s, words, c) && c.wordI < |words| && IsLong(words[c.wordI]) && words[c.wordI][2..] in s.longFlags
    ensures ScanStep(s, words, c) == Select(words, c.elements, c.cells, s.longFlags[words[c.wordI][2..]], c.argIndex, words[c.wordI], c.wordI + 1)
  {
  }

  /** The turn for a known two-character "-x", found in `long_flags` under "-x". */
  lemma ShortStep(s: Schema, words: seq<string>, c: Cursor)
    requires InScan(s, words, c) && c.wordI < |words|
    requires StartsWithDash(words[c.wordI]) && !IsLong(words[c.wordI]) && |words[c.wordI]| == 2 && words[c.wordI] in s.longFlags
    ensures ScanStep(s, words, c) == Select(words, c.elements, c.cells, s.longFlags[words[c.wordI]], c.argIndex, words[c.wordI], c.wordI + 1)
  {
  }

  /** The turn for a non-dash word while positional slots remain. */
  lemma PositionalStep(s: Schema, words: seq<string>, c: Cursor)
    requires InScan(s, words, c) && c.wordI < |words| && !StartsWithDash(words[c.wordI]) && c.argIndex < |s.args|
    ensures ScanStep(s, words, c) == Select(words, c.elements, c.cells, s.args[c.argIndex], c.argIndex + 1, words[c.wordI], c.wordI + 1)
  {
    PositionalRoute(s, |c.elements|, words[c.wordI], c.argIndex);
  }

  /** A non-dash word while positional slots remain goes to the next slot. */
  lemma PositionalRoute(s: Schema, n: nat, word: string, argIndex: nat)
    requires Fits(s, n) && argIndex < |s.args| && !StartsWithDash(word)
    ensures RouteOf(s, n, word, argIndex) == Use(s.args[argIndex], argIndex + 1)
  {
    assert !IsLong(word);
  }

  datatype ScanEnd =
    | Finished(elements: seq<Element>, cells: map<Cell, Value>, sub: Option<(string, seq<string>)>)
    | Failed(error: ParseError, elements: seq<Element>, cells: map<Cell, Value>)

  /** The `parse` loop from the cursor to the end of the words, a failure or a subcommand. */
  function Scan(s: Schema, words: seq<string>, c: Cursor): (r: ScanEnd)
    requires InScan(s, words, c)
    decreases |words| - c.wordI
    ensures MarksOnly(c.elements, r.elements)
    ensures r.Failed? ==> !r.error.MissingValue?
  {
    if c.wordI == |words| then Finished(c.elements, c.cells, None)
    else
      match ScanStep(s, words, c)
      case Abort(e, els, cells) => Failed(e, els, cells)
      case Stop(w, rest, els, cells) => Finished(els, cells, Some((w, rest)))
      case Next(c') => Scan(s, words, c')
  }

  /** What the pass after the scan does with an element that is not set. */
  datatype Fallback = Keep | Reset(cell: Cell, value: Value) | Missing

  function FallbackOf(f: Field): (r: Fallback)
    ensures r.Reset? ==> r.cell == f.output
  {
    match f
    case StringOpt(_, _) => Keep
    case IntOpt(_) => Keep
    case StringList(out, _) => Reset(out, VStringList([]))
    case Boolean(out, requireValue) => if requireValue then Missing else Reset(out, VBool(false))
    case String(out, d, _) => if d.Some? then Reset(out, VString(d.value)) else Missing
    case Int(out, d) => if d.Some? then Reset(out, VInt(d.value)) else Missing
  }

  /** The pass after the scan, from element `i` on: it stops at the first missing element. */
  function PostScan(elements: seq<Element>, cells: map<Cell, Value>, i: nat): (r: (Outcome<ParseError>, map<Cell, Value>))
    requires i <= |elements|
    decreases |elements| - i
    ensures r.0.Fail? ==> r.0.error.MissingValue?
  {
    if i == |elements| then (Pass, cells)
    else if elements[i].isSet then PostScan(elements, cells, i + 1)
    else
      match FallbackOf(elements[i].field)
      case Keep => PostScan(elements, cells, i + 1)
      case Reset(cell, v) => PostScan(elements, cells[cell := v], i + 1)
      case Missing => (Fail(MissingValue(elements[i].name)), cells)
  }

  /** What one `parse` call returns, with the elements and destinations it leaves and the subcommand it found. */
  datatype Run = Run(outcome: Outcome<ParseError>, elements: seq<Element>, cells: map<Cell, Value>, sub: Option<(string, seq<string>)>)

  /** The scan from the first word and the first positional. */
  function StartCursor(elements: seq<Element>, cells: map<Cell, Value>): Cursor
  {
    Cursor(0, 0, elements, cells)
  }

  /** `parse(words)`: the scan, then, unless it failed, the pass over the elements not set. */
  function ParseRun(s: Schema, words: seq<string>, elements: seq<Element>, cells: map<Cell, Value>): (r: Run)
    requires InScan(s, words, StartCursor(elements, cells))
    ensures MarksOnly(elements, r.elements)
  {
    match Scan(s, words, StartCursor(elements, cells))
    case Failed(e, els, cells') => Run(Fail(e), els, cells', None)
    case Finished(els, cells', sub) =>
      var (outcome, cells'') := PostScan(els, cells', 0);
      Run(outcome, els, cells'', sub)
  }
}
