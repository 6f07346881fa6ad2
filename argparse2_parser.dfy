/**
 * Engine B's `Parser` (include/argparse2.hpp) as a class: `add` and
 * `add_subcommand` build the declaration, `parse` scans the words with two
 * cursors, raising `is_set` flags and writing the caller's destinations, then
 * settles the elements left unset.
 */
module ArgParse2Parser {
  import opened Common
  import opened CText
  import opened ArgParse2
  import ArgParse2Props

  /** How one word of `parse` ends: go on, return false, or stop at a subcommand. */
  datatype Status = Continue | Failure(error: ParseError) | Stopped

  class Parser {
    var elements: seq<Element>
    var haveMultiArg: bool
    var longFlags: map<string, nat>
    var shortFlags: map<char, nat>
    var args: seq<nat>
    var subcommands: seq<string>
    /** `subcommand_` and `subargs_`: set when `parse` stops at a subcommand. */
    var chosenSubcommand: string
    var remainingWords: seq<string>

    function Reg(): Registry
      reads this
    {
      Registry(elements, haveMultiArg, longFlags, shortFlags, args, subcommands)
    }

    ghost predicate Valid()
      reads this
    {
      WellFormed(Reg())
    }

    constructor ()
      ensures Reg() == EmptyRegistry() && Valid()
      ensures chosenSubcommand == "" && remainingWords == []
    {
      elements := [];
      haveMultiArg := false;
      longFlags := map[];
      shortFlags := map[];
      args := [];
      subcommands := [];
      chosenSubcommand := "";
      remainingWords := [];
      ArgParse2Props.EmptyWellFormed();
    }

    /** `subcommand()` */
    function Subcommand(): string
      reads this
    {
      chosenSubcommand
    }

    /** `subargs()` */
    function Subargs(): seq<string>
      reads this
    {
      remainingWords
    }

    /** `add(name, kind, field)`, which keeps the parser well formed. */
    method Add(name: string, kind: Kind, field: Field) returns (r: Outcome<UsageError>)
      requires Valid()
      modifies this
      ensures (r, Reg()) == ArgParse2.Add(old(Reg()), name, kind, field)
      ensures Valid()
      ensures chosenSubcommand == old(chosenSubcommand) && remainingWords == old(remainingWords)
    {
      ArgParse2Props.AddKeepsWellFormed(Reg(), name, kind, field);
      r := Register(name, kind, field);
    }

    /** The body of `add`: all checks come before any change. */
    method Register(name: string, kind: Kind, field: Field) returns (r: Outcome<UsageError>)
      modifies this
      ensures (r, Reg()) == ArgParse2.Add(old(Reg()), name, kind, field)
      ensures chosenSubcommand == old(chosenSubcommand) && remainingWords == old(remainingWords)
    {
      ghost var expected := ArgParse2.Add(Reg(), name, kind, field);
      if field.String? && field.defaultValue.Some? && !ValidateChoice(field.defaultValue.value, field.choices) {
        return Fail(DefaultNotAChoice(name));
      }
      if haveMultiArg && kind.Arg? {
        return Fail(ListNotLast);
      }
      if field.StringList? {
        if subcommands != [] {
          return Fail(ListWithSubcommand);
        }
        if !kind.Arg? {
          return Fail(ListAsFlag);
        }
      }
      assert AddError(old(Reg()), name, kind, field).None?;
      haveMultiArg := haveMultiArg || field.StringList?;
      match kind {
        case Arg =>
          args := args + [|elements|];
        case Flag(c) =>
          if name !in longFlags {
            longFlags := longFlags[name := |elements|];
          }
          if c != '\0' && c !in shortFlags {
            shortFlags := shortFlags[c := |elements|];
          }
      }
      elements := elements + [Element(false, name, kind, field)];
      r := Pass;
      assert Reg() == expected.1;
    }

    /** `add_subcommand(name)` */
    method AddSubcommand(name: string) returns (r: Outcome<UsageError>)
      requires Valid()
      modifies this
      ensures (r, Reg()) == ArgParse2.AddSubcommand(old(Reg()), name)
      ensures Valid()
      ensures chosenSubcommand == old(chosenSubcommand) && remainingWords == old(remainingWords)
    {
      ArgParse2Props.AddSubcommandKeepsWellFormed(Reg(), name);
      if haveMultiArg {
        return Fail(ListWithSubcommand);
      }
      subcommands := subcommands + [name];
      r := Pass;
    }

    /**
     * `parse(words)`: returns what `ParseRun` says, leaves the `is_set` flags
     * and destinations as it does, and records the subcommand it stops at.
     */
    method Parse(words: seq<string>, mem: Memory) returns (r: Outcome<ParseError>)
      requires Valid()
      modifies this, mem
      ensures var run := ParseRun(SchemaOf(old(Reg())), words, old(elements), old(mem.cells));
        && r == run.outcome
        && elements == run.elements
        && mem.cells == run.cells
        && (run.sub.Some? ==> chosenSubcommand == run.sub.value.0 && remainingWords == run.sub.value.1)
        && (run.sub.None? ==> chosenSubcommand == old(chosenSubcommand) && remainingWords == old(remainingWords))
      ensures Reg() == old(Reg()).(elements := elements)
      ensures Valid()
    {
      ArgParse2Props.RunOfScan(SchemaOf(Reg()), words, elements, mem.cells);
      var failure := ScanWords(words, mem);
      ArgParse2Props.MarksKeepWellFormed(old(Reg()), elements);
      if failure.Some? {
        return Fail(failure.value);
      }
      r := Settle(mem);
    }

    /** The `parse` loop over the words: it ends at the last word, the first error or the subcommand. */
    method ScanWords(words: seq<string>, mem: Memory) returns (failure: Option<ParseError>)
      requires InScan(SchemaOf(Reg()), words, StartCursor(elements, mem.cells))
      modifies this, mem
      ensures var sc := Scan(SchemaOf(old(Reg())), words, StartCursor(old(elements), old(mem.cells)));
        && elements == sc.elements && mem.cells == sc.cells
        && (failure.Some? <==> sc.Failed?)
        && (sc.Failed? ==> failure.value == sc.error)
        && (sc.Finished? && sc.sub.Some? ==> chosenSubcommand == sc.sub.value.0 && remainingWords == sc.sub.value.1)
        && (!(sc.Finished? && sc.sub.Some?) ==> chosenSubcommand == old(chosenSubcommand) && remainingWords == old(remainingWords))
      ensures Reg() == old(Reg()).(elements := elements)
    {
      ghost var s := SchemaOf(Reg());
      ghost var target := Scan(s, words, StartCursor(elements, mem.cells));
      var wordI, argIndex := 0, 0;
      var stopped := false;
      while wordI < |words|
        invariant InScan(s, words, Cursor(wordI, argIndex, elements, mem.cells))
        invariant Scan(s, words, Cursor(wordI, argIndex, elements, mem.cells)) == target
        invariant s == SchemaOf(Reg())
        invariant Reg() == old(Reg()).(elements := elements)
        invariant chosenSubcommand == old(chosenSubcommand) && remainingWords == old(remainingWords)
        decreases |words| - wordI
      {
        var status;
        status, wordI, argIndex := ParseWord(words, wordI, argIndex, mem);
        match status {
          case Failure(e) =>
            assert target == Failed(e, elements, mem.cells);
            return Some(e);
          case Stopped =>
            stopped := true;
            break;
          case Continue =>
        }
      }
      assert target.Finished? && target.elements == elements && target.cells == mem.cells;
      assert !stopped ==> target.sub.None?;
      assert stopped ==> target.sub == Some((chosenSubcommand, remainingWords));
      failure := None;
    }

    /** One turn of the `parse` loop: the word at `wordI0` and the words it consumes. */
    method ParseWord(words: seq<string>, wordI0: nat, argIndex0: nat, mem: Memory)
      returns (status: Status, wordI: nat, argIndex: nat)
      requires InScan(SchemaOf(Reg()), words, Cursor(wordI0, argIndex0, elements, mem.cells)) && wordI0 < |words|
      modifies this, mem
      ensures match ScanStep(SchemaOf(old(Reg())), words, Cursor(wordI0, argIndex0, old(elements), old(mem.cells)))
        case Next(c) =>
          status == Continue && wordI == c.wordI && argIndex == c.argIndex && elements == c.elements && mem.cells == c.cells
          && chosenSubcommand == old(chosenSubcommand) && remainingWords == old(remainingWords)
        case Abort(e, els, cells) =>
          status == Failure(e) && elements == els && mem.cells == cells
          && chosenSubcommand == old(chosenSubcommand) && remainingWords == old(remainingWords)
        case Stop(w, rest, els, cells) =>
          status == Stopped && elements == els && mem.cells == cells
          && chosenSubcommand == w && remainingWords == rest
      ensures Reg() == old(Reg()).(elements := elements)
    {
      var word := words[wordI0];
      var wi := wordI0 + 1;
      var route := Lookup(word, argIndex0);
      ghost var step := ScanStep(SchemaOf(Reg()), words, Cursor(wordI0, argIndex0, elements, mem.cells));
      match route {
        case Use(ei, ai) =>
          assert step == Select(words, elements, mem.cells, ei, ai, word, wi);
          argIndex := ai;
          status, wordI := SelectValue(words, ei, ai, word, wi, mem);
        case Refuse(e) =>
          assert step == Abort(e, elements, mem.cells);
          return Failure(e), wi, argIndex0;
        case ToSubcommand =>
          assert step == Stop(word, words[wi..], elements, mem.cells);
          chosenSubcommand := word;
          remainingWords := words[wi..];
          return Stopped, wi, argIndex0;
      }
    }

    /**
     * The lookup at the head of one turn of the loop: "--name" in
     * `long_flags` under its name, a two-character "-x" under "-x" itself,
     * anything else the next positional or, past them, the subcommand.
     */
    method Lookup(word: string, argIndex: nat) returns (route: Route)
      requires Fits(SchemaOf(Reg()), |elements|) && argIndex <= |args|
      ensures route == RouteOf(SchemaOf(Reg()), |elements|, word, argIndex)
    {
      if |word| >= 2 && word[0] == '-' && word[1] == '-' {
        if word[2..] !in longFlags {
          return Refuse(UnknownLongFlag(word));
        }
        return Use(longFlags[word[2..]], argIndex);
      } else if |word| > 0 && word[0] == '-' {
        if |word| != 2 {
          return Refuse(InvalidShortFlag(word));
        }
        if word !in longFlags {
          return Refuse(UnknownShortFlag(word));
        }
        return Use(longFlags[word], argIndex);
      } else if argIndex < |args| {
        return Use(args[argIndex], argIndex + 1);
      } else if subcommands != [] {
        return ToSubcommand;
      }
      return Refuse(ExtraArgument(word));
    }

    /**
     * Element `ei`, selected by `word` with the scan at `wi`: a flag other
     * than a plain Boolean takes its value word, then the field check and
     * store; a plain Boolean flag writes true and leaves `is_set` alone.
     */
    method SelectValue(words: seq<string>, ei: nat, argIndex: nat, word: string, wi: nat, mem: Memory)
      returns (status: Status, wordI: nat)
      requires ei < |elements| && wi <= |words|
      modifies this, mem
      ensures match Select(words, old(elements), old(mem.cells), ei, argIndex, word, wi)
        case Next(c') => status == Continue && wordI == c'.wordI && c'.argIndex == argIndex && elements == c'.elements && mem.cells == c'.cells
        case Abort(e, els, cells) => status == Failure(e) && elements == els && mem.cells == cells
        case Stop(_, _, _, _) => false
      ensures Reg() == old(Reg()).(elements := elements)
      ensures chosenSubcommand == old(chosenSubcommand) && remainingWords == old(remainingWords)
    {
      var e := elements[ei];
      var value := word;
      wordI := wi;
      if e.kind.Flag? {
        if e.field.Boolean? && !e.field.requireValue {
          mem.cells := mem.cells[e.field.output := VBool(true)];
          return Continue, wordI;
        }
        if wordI == |words| {
          return Failure(MissingFlagValue(word)), wordI;
        }
        value := words[wordI];
        wordI := wordI + 1;
      }
      status, wordI := StoreValue(words, ei, argIndex, value, wordI, mem);
    }

    /** The field check and store of value word `value` for element `ei`, the scan going on at `vi`. */
    method StoreValue(words: seq<string>, ei: nat, argIndex: nat, value: string, vi: nat, mem: Memory)
      returns (status: Status, wordI: nat)
      requires ei < |elements| && vi <= |words|
      modifies this, mem
      ensures match Store(words, old(elements), old(mem.cells), ei, argIndex, value, vi)
        case Next(c') => status == Continue && wordI == c'.wordI && c'.argIndex == argIndex && elements == c'.elements && mem.cells == c'.cells
        case Abort(e, els, cells) => status == Failure(e) && elements == els && mem.cells == cells
        case Stop(_, _, _, _) => false
      ensures Reg() == old(Reg()).(elements := elements)
      ensures chosenSubcommand == old(chosenSubcommand) && remainingWords == old(remainingWords)
    {
      var e := elements[ei];
      wordI := vi;
      match e.field {
      case String(out, _, choices) =>
        if !ValidateChoice(value, choices) {
          return Failure(InvalidValue(value, e.name)), wordI;
        }
        elements := MarkSet(elements, ei);
        mem.cells := mem.cells[out := VString(value)];
      case StringOpt(out, choices) =>
        if !ValidateChoice(value, choices) {
          return Failure(InvalidValue(value, e.name)), wordI;
        }
        elements := MarkSet(elements, ei);
        mem.cells := mem.cells[out := VOptString(Some(value))];
      case StringList(out, choices) =>
        elements := MarkSet(elements, ei);
        var k := CollectChoices(words, vi, choices, out, mem);
        if k < |words| {
          return Failure(InvalidValue(words[k], e.name)), k + 1;
        }
        wordI := k;
      case Int(out, _) =>
        match Stoi(value) {
          case Converted(n) =>
            mem.cells := mem.cells[out := VInt(n)];
            elements := MarkSet(elements, ei);
          case InvalidArgument =>
            return Failure(InvalidInteger(value)), wordI;
          case OutOfRange =>
            return Failure(IntegerOutOfRange(value)), wordI;
        }
      case IntOpt(out) =>
        match Stoi(value) {
          case Converted(n) =>
            mem.cells := mem.cells[out := VOptInt(Some(n))];
            elements := MarkSet(elements, ei);
          case InvalidArgument =>
            return Failure(InvalidInteger(value)), wordI;
          case OutOfRange =>
            return Failure(IntegerOutOfRange(value)), wordI;
        }
      case Boolean(_, _) =>
      }
      status := Continue;
    }

    /**
     * The loop of a string list: clear the list, then append each following
     * word until the end, stopping at the first word that is not a valid
     * choice, whose position it returns.
     */
    method CollectChoices(words: seq<string>, start: nat, choices: seq<string>, output: Cell, mem: Memory) returns (k: nat)
      requires start <= |words|
      modifies mem
      ensures k == FirstInvalid(words, start, choices)
      ensures mem.cells == old(mem.cells)[output := VStringList(words[start..k])]
    {
      ghost var before := mem.cells;
      var list: seq<string> := [];
      mem.cells := mem.cells[output := VStringList(list)];
      k := start;
      while k != |words|
        invariant start <= k <= |words|
        invariant FirstInvalid(words, k, choices) == FirstInvalid(words, start, choices)
        invariant list == words[start..k]
        invariant mem.cells == before[output := VStringList(list)]
        decreases |words| - k
      {
        var word := words[k];
        if !ValidateChoice(word, choices) {
          assert FirstInvalid(words, k, choices) == k;
          return;
        }
        assert FirstInvalid(words, k, choices) == FirstInvalid(words, k + 1, choices);
        WrittenTwice(before, output, VStringList(list), VStringList(list + [word]));
        list := list + [word];
        mem.cells := mem.cells[output := VStringList(list)];
        k := k + 1;
      }
    }

    /** The pass after the scan over the elements not set, in declaration order. */
    method Settle(mem: Memory) returns (r: Outcome<ParseError>)
      modifies mem
      ensures (r, mem.cells) == PostScan(elements, old(mem.cells), 0)
    {
      var i := 0;
      while i < |elements|
        invariant i <= |elements|
        invariant PostScan(elements, mem.cells, i) == PostScan(elements, old(mem.cells), 0)
      {
        var e := elements[i];
        if !e.isSet {
          match e.field
          case StringOpt(_, _) =>
          case StringList(out, _) =>
            mem.cells := mem.cells[out := VStringList([])];
          case IntOpt(_) =>
          case Boolean(out, requireValue) =>
            if requireValue {
              return Fail(MissingValue(e.name));
            }
            mem.cells := mem.cells[out := VBool(false)];
          case String(out, d, _) =>
            if d.None? {
              return Fail(MissingValue(e.name));
            }
            mem.cells := mem.cells[out := VString(d.value)];
          case Int(out, d) =>
            if d.None? {
              return Fail(MissingValue(e.name));
            }
            mem.cells := mem.cells[out := VInt(d.value)];
        }
        i := i + 1;
      }
      r := Pass;
    }
  }
}
