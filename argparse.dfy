/**
 * Engine A (include/argparse.hpp with src/argparse.cpp): its data model and
 * the functions that specify what its operations do. The `Parser` class
 * itself, whose methods are proved against these functions, is in module
 * ArgParseParser; the properties proved about them are in ArgParseProps.
 */
module ArgParse {
  import opened Common
  import opened CText

  /** The destination types a `FieldPtr` may point to. */
  datatype Shape =
    | IntField | DoubleField | StringField
    | OptIntField | OptDoubleField | OptStringField
    | StringListField | BoolField

  /** `is_opt_field<T>`: destinations whose absence on the command line is not an error. */
  predicate IsOptField(t: Shape)
  {
    t.OptIntField? || t.OptDoubleField? || t.OptStringField? || t.StringListField? || t.BoolField?
  }

  /** `is_string_field<T>` */
  predicate IsStringField(t: Shape) { t.StringField? || t.OptStringField? }

  /** `is_int_field<T>` */
  predicate IsIntField(t: Shape) { t.IntField? || t.OptIntField? }

  /** `is_double_field<T>` */
  predicate IsDoubleField(t: Shape) { t.DoubleField? || t.OptDoubleField? }

  /** One declared binding; `output` and `shape` together are the `FieldPtr`. */
  datatype Element = Element(
    identifier: string,
    output: Cell,
    shape: Shape,
    choices: seq<string>,
    hasDefault: bool,
    isOptional: bool)

  /** The messages of `UsageError`, raised while the schema is declared. */
  datatype UsageError =
    | InvalidIdentifier(identifier: string)
    | ReservedFlag(alias: string)
    | InvalidFlag(alias: string)
    | DuplicateFlag(alias: string)
    | InvalidDefault(value: string)

  /**
   * The diagnostics `parse` prints before returning false. `InvalidDouble` is
   * printed with the same "Invalid int value" text as `InvalidInt`.
   * `IntOutOfRange` and `DoubleOutOfRange` stand for the `std::out_of_range`
   * that `parse` does not catch: the program ends instead of returning.
   */
  datatype ParseError =
    | ExtraPositional(word: string)
    | UnknownFlag(word: string)
    | MissingFlagValue(flag: string)
    | InvalidChoice(word: string)
    | InvalidInt(word: string)
    | IntOutOfRange(word: string)
    | InvalidDouble(word: string)
    | DoubleOutOfRange(word: string)
    | InvalidBool(word: string)
    | MissingValue(identifier: string)

  /** What `std::stod` does with a word; floating point is not modelled, so it is a parameter. */
  type Stod = string -> NumResult<real>

  // ---------------------------------------------------------------------
  // Identifier grammar (Parser::validate_label, Parser::add_identifier)
  // ---------------------------------------------------------------------

  /** A label: a letter, then letters, digits, '-' and '_'. */
  predicate IsLabel(text: string)
  {
    && |text| > 0
    && IsAlpha(text[0])
    && forall k :: 0 <= k < |text| ==> IsAlnum(text[k]) || text[k] == '-' || text[k] == '_'
  }

  /**
   * The alias read at `begin`. The code passes the absolute position of the
   * next '|' to `substr` where a length is expected, so from the second
   * alias on the part may run past the next '|'.
   */
  function PartAt(identifier: string, begin: nat): string
    requires begin <= |identifier|
  {
    Substr(identifier, begin, FindChar(identifier, '|', begin))
  }

  /** Where the alias after the one at `begin` starts; `None` after the last. */
  function NextBegin(identifier: string, begin: nat): (r: Option<nat>)
    requires begin <= |identifier|
    ensures r.Some? ==> begin < r.value <= |identifier|
  {
    match FindChar(identifier, '|', begin)
    case None => None
    case Some(e) => Some(e + 1)
  }

  /** The aliases `add_identifier` reads from `begin` on, in order. */
  function Parts(identifier: string, begin: nat): (r: seq<string>)
    requires begin <= |identifier|
    decreases |identifier| - begin
    ensures |r| > 0 && r[0] == PartAt(identifier, begin)
  {
    [PartAt(identifier, begin)] +
      match NextBegin(identifier, begin)
      case None => []
      case Some(b) => Parts(identifier, b)
  }

  /**
   * Why one alias is refused before the duplicate check, if it is. A long
   * alias ("--x") needs a label after its two dashes; any other alias is
   * refused only when its size is not 2 AND its second character is not a
   * letter.
   */
  function AliasError(part: string): Option<UsageError>
  {
    if part == "-h" || part == "--help" then Some(ReservedFlag(part))
    else if |part| >= 2 && part[1] == '-' then
      if IsLabel(part[2..]) then None else Some(InvalidFlag(part))
    else if |part| != 2 && !IsAlpha(CharAt(part, 1)) then Some(InvalidFlag(part))
    else None
  }

  /**
   * The loop of `add_identifier` over the aliases from `begin` on: each
   * alias is checked, then mapped to `index`. The flags reached before a
   * refused alias stay registered.
   */
  function RegisterAliases(identifier: string, begin: nat, flags: map<string, nat>, index: nat)
    : (r: (Outcome<UsageError>, map<string, nat>))
    requires begin <= |identifier|
    decreases |identifier| - begin
  {
    var part := PartAt(identifier, begin);
    match AliasError(part)
    case Some(e) => (Fail(e), flags)
    case None =>
      if part in flags then (Fail(DuplicateFlag(part)), flags)
      else
        var next := flags[part := index];
        match NextBegin(identifier, begin)
        case None => (Pass, next)
        case Some(b) => RegisterAliases(identifier, b, next, index)
  }

  /** The indices `add_identifier` leaves behind, with its outcome. */
  datatype Registration = Registration(outcome: Outcome<UsageError>, flags: map<string, nat>, args: seq<nat>)

  /** `add_identifier(identifier)` for a parser whose next element gets `index`. */
  function RegisterIdentifier(flags: map<string, nat>, args: seq<nat>, index: nat, identifier: string)
    : Registration
  {
    if CharAt(identifier, 0) != '-' then
      if IsLabel(identifier) then Registration(Pass, flags, args + [index])
      else Registration(Fail(InvalidIdentifier(identifier)), flags, args)
    else
      var (outcome, flags') := RegisterAliases(identifier, 0, flags, index);
      Registration(outcome, flags', args)
  }

  // ---------------------------------------------------------------------
  // Parsing (Parser::parse)
  // ---------------------------------------------------------------------

  /** What `parse` reads of a parser: it is `const`. */
  datatype Schema = Schema(elements: seq<Element>, flags: map<string, nat>, args: seq<nat>)

  /** Every recorded index names an element. */
  predicate Indexed(s: Schema)
  {
    && (forall f :: f in s.flags ==> s.flags[f] < |s.elements|)
    && (forall k :: 0 <= k < |s.args| ==> s.args[k] < |s.elements|)
  }

  /**
   * Every recorded index names an element or the next one to be added: a
   * refused identifier may leave aliases mapped to `|elements|`.
   */
  predicate IndexedWithin(s: Schema)
  {
    && (forall f :: f in s.flags ==> s.flags[f] <= |s.elements|)
    && (forall k :: 0 <= k < |s.args| ==> s.args[k] <= |s.elements|)
  }

  /** The scan position: next word, next positional slot, the has-value vector, the destinations. */
  datatype Cursor = Cursor(wordI: nat, argI: nat, hasValue: seq<bool>, cells: map<Cell, Value>)

  predicate InScan(s: Schema, words: seq<string>, c: Cursor)
  {
    Indexed(s) && c.wordI <= |words| && c.argI <= |s.args| && |c.hasValue| == |s.elements|
  }

  /** The initial has-value vector: each element's `has_default`. */
  function HasDefaults(elements: seq<Element>): (r: seq<bool>)
    ensures |r| == |elements|
    ensures forall i :: 0 <= i < |elements| ==> r[i] == elements[i].hasDefault
  {
    seq(|elements|, i requires 0 <= i < |elements| => elements[i].hasDefault)
  }

  /** A word starts a flag when its first character is '-'. */
  predicate IsDash(word: string) { CharAt(word, 0) == '-' }

  /**
   * Where a string list that continues at `i` ends: at the end of the words,
   * or, when it was reached through a flag, at the first word starting with '-'.
   */
  function ListEnd(words: seq<string>, i: nat, viaFlag: bool): (r: nat)
    requires i <= |words|
    decreases |words| - i
    ensures i <= r <= |words|
    ensures !viaFlag ==> r == |words|
    ensures viaFlag ==> forall k :: i <= k < r ==> !IsDash(words[k])
    ensures viaFlag && r < |words| ==> IsDash(words[r])
  {
    if i == |words| then i
    else if viaFlag && IsDash(words[i]) then i
    else ListEnd(words, i + 1, viaFlag)
  }

  datatype Coercion = Coerced(value: Value) | Rejected(error: ParseError)

  /** The `std::visit` of a value word into a destination that is not a string list. */
  function Coerce(e: Element, word: string, stod: Stod): Coercion
    requires !e.shape.StringListField?
  {
    match e.shape
    case StringField =>
      if |e.choices| > 0 && Find(e.choices, word) == |e.choices| then Rejected(InvalidChoice(word))
      else Coerced(VString(word))
    case OptStringField =>
      if |e.choices| > 0 && Find(e.choices, word) == |e.choices| then Rejected(InvalidChoice(word))
      else Coerced(VOptString(Some(word)))
    case IntField =>
      (match Stoi(word)
       case Converted(n) => Coerced(VInt(n))
       case InvalidArgument => Rejected(InvalidInt(word))
       case OutOfRange => Rejected(IntOutOfRange(word)))
    case OptIntField =>
      (match Stoi(word)
       case Converted(n) => Coerced(VOptInt(Some(n)))
       case InvalidArgument => Rejected(InvalidInt(word))
       case OutOfRange => Rejected(IntOutOfRange(word)))
    case DoubleField =>
      (match stod(word)
       case Converted(d) => Coerced(VDouble(d))
       case InvalidArgument => Rejected(InvalidDouble(word))
       case OutOfRange => Rejected(DoubleOutOfRange(word)))
    case OptDoubleField =>
      (match stod(word)
       case Converted(d) => Coerced(VOptDouble(Some(d)))
       case InvalidArgument => Rejected(InvalidDouble(word))
       case OutOfRange => Rejected(DoubleOutOfRange(word)))
    case BoolField =>
      if word == "true" then Coerced(VBool(true))
      else if word == "false" then Coerced(VBool(false))
      else Rejected(InvalidBool(word))
  }

  datatype Step = Next(cursor: Cursor) | Abort(error: ParseError, cells: map<Cell, Value>)

  /** One turn of the `parse` loop: the word at the cursor and the words it consumes. */
  function ScanStep(s: Schema, words: seq<string>, c: Cursor, stod: Stod): (r: Step)
    requires InScan(s, words, c) && c.wordI < |words|
    ensures r.Next? ==> InScan(s, words, r.cursor) && r.cursor.wordI > c.wordI
    ensures r.Abort? ==> !r.error.MissingValue?
  {
    var word := words[c.wordI];
    var wi := c.wordI + 1;
    var isFlag := IsDash(word);
    if !isFlag && c.argI == |s.args| then Abort(ExtraPositional(word), c.cells)
    else if isFlag && word !in s.flags then Abort(UnknownFlag(word), c.cells)
    else
      var ei := if isFlag then s.flags[word] else s.args[c.argI];
      var argI := if isFlag then c.argI else c.argI + 1;
      var e := s.elements[ei];
      var hv := c.hasValue[ei := true];
      if isFlag && e.shape.BoolField? then
        Next(Cursor(wi, argI, hv, c.cells[e.output := VBool(true)]))
      else if isFlag && wi == |words| then Abort(MissingFlagValue(word), c.cells)
      else
        var value := if isFlag then words[wi] else word;
        var vi := if isFlag then wi + 1 else wi;
        if e.shape.StringListField? then
          var end := ListEnd(words, vi, isFlag);
          Next(Cursor(end, argI, hv, c.cells[e.output := VStringList([value] + words[vi..end])]))
        else
          match Coerce(e, value, stod)
          case Rejected(err) => Abort(err, c.cells)
          case Coerced(v) => Next(Cursor(vi, argI, hv, c.cells[e.output := v]))
  }

  datatype ScanEnd = Scanned(hasValue: seq<bool>, cells: map<Cell, Value>) | Aborted(error: ParseError, cells: map<Cell, Value>)

  /** The `parse` loop from the cursor to the end of the words or the first failure. */
  function Scan(s: Schema, words: seq<string>, c: Cursor, stod: Stod): (r: ScanEnd)
    requires InScan(s, words, c)
    decreases |words| - c.wordI
    ensures r.Scanned? ==> |r.hasValue| == |s.elements|
    ensures r.Aborted? ==> !r.error.MissingValue?
  {
    if c.wordI == |words| then Scanned(c.hasValue, c.cells)
    else
      match ScanStep(s, words, c, stod)
      case Abort(e, cells) => Aborted(e, cells)
      case Next(c') => Scan(s, words, c', stod)
  }

  /** The first index at or after `from` whose entry is false. */
  function FirstUnset(hv: seq<bool>, from: nat): (r: Option<nat>)
    requires from <= |hv|
    decreases |hv| - from
    ensures r.None? <==> forall i :: from <= i < |hv| ==> hv[i]
    ensures r.Some? ==> from <= r.value < |hv| && !hv[r.value]
    ensures r.Some? ==> forall i :: from <= i < r.value ==> hv[i]
  {
    if from == |hv| then None
    else if !hv[from] then Some(from)
    else FirstUnset(hv, from + 1)
  }

  /** What one `parse` call returns, with the destinations as it leaves them. */
  datatype Run = Run(outcome: Outcome<ParseError>, cells: map<Cell, Value>)

  /** `parse(words)`: the scan, then the report of the first element still without a value. */
  function ParseRun(s: Schema, words: seq<string>, cells: map<Cell, Value>, stod: Stod): Run
    requires Indexed(s)
  {
    match Scan(s, words, Cursor(0, 0, HasDefaults(s.elements), cells), stod)
    case Aborted(e, cells') => Run(Fail(e), cells')
    case Scanned(hv, cells') =>
      match FirstUnset(hv, 0)
      case Some(i) => Run(Fail(MissingValue(s.elements[i].identifier)), cells')
      case None => Run(Pass, cells')
  }
}
