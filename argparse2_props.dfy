/**
 * Properties of engine B (include/argparse2.hpp), proved about the functions
 * of module ArgParse2 that its `Parser` methods follow.
 */
module ArgParse2Props {
  import opened Common
  import opened CText
  import opened ArgParse2

  // ---------------------------------------------------------------------
  // Declaration
  // ---------------------------------------------------------------------

  /** `Parser()` starts well formed. */
  lemma EmptyWellFormed()
    ensures WellFormed(EmptyRegistry())
  {
  }

  /** A successful `add` keeps the registry well formed. */
  lemma AddKeepsWellFormed(reg: Registry, name: string, kind: Kind, field: Field)
    requires WellFormed(reg)
    ensures WellFormed(Add(reg, name, kind, field).1)
  {
    if AddError(reg, name, kind, field).None? {
      var n := |reg.elements|;
      var e := Element(false, name, kind, field);
      var reg' := Add(reg, name, kind, field).1;
      var els := reg'.elements;
      assert els == reg.elements + [e];
      assert forall i :: 0 <= i < n ==> els[i] == reg.elements[i];
      assert els[n] == e;
      ArgsKept(reg, reg', n, kind);
      FlagsKept(reg, reg', n, name, kind);
      ListRuleKept(reg, reg', n, name, kind, field);
    }
  }

  lemma ArgsKept(reg: Registry, reg': Registry, n: nat, kind: Kind)
    requires WellFormed(reg) && n == |reg.elements|
    requires |reg'.elements| == n + 1 && reg'.elements[n].kind == kind
    requires forall i :: 0 <= i < n ==> reg'.elements[i] == reg.elements[i]
    requires reg'.args == if kind.Arg? then reg.args + [n] else reg.args
    ensures forall k :: 0 <= k < |reg'.args| ==> reg'.args[k] < |reg'.elements|
    ensures forall k, l :: 0 <= k < l < |reg'.args| ==> reg'.args[k] < reg'.args[l]
    ensures forall k :: 0 <= k < |reg'.args| ==> reg'.elements[reg'.args[k]].kind.Arg?
    ensures forall i :: 0 <= i < |reg'.elements| && reg'.elements[i].kind.Arg? ==> i in reg'.args
  {
    forall i | 0 <= i < |reg'.elements| && reg'.elements[i].kind.Arg? ensures i in reg'.args {
      if i < n {
        assert reg.elements[i].kind.Arg?;
        assert i in reg.args;
      } else {
        assert reg'.args[|reg'.args| - 1] == n;
      }
    }
  }

  lemma FlagsKept(reg: Registry, reg': Registry, n: nat, name: string, kind: Kind)
    requires WellFormed(reg) && n == |reg.elements|
    requires |reg'.elements| == n + 1 && reg'.elements[n].kind == kind && reg'.elements[n].name == name
    requires forall i :: 0 <= i < n ==> reg'.elements[i] == reg.elements[i]
    requires reg'.longFlags == if kind.Flag? then Emplace(reg.longFlags, name, n) else reg.longFlags
    requires reg'.shortFlags == if kind.Flag? && kind.shortFlag != '\0' then Emplace(reg.shortFlags, kind.shortFlag, n) else reg.shortFlags
    ensures forall f :: f in reg'.longFlags ==> reg'.longFlags[f] < |reg'.elements|
    ensures forall c :: c in reg'.shortFlags ==> reg'.shortFlags[c] < |reg'.elements|
    ensures forall f :: f in reg'.longFlags ==> reg'.elements[reg'.longFlags[f]].kind.Flag? && reg'.elements[reg'.longFlags[f]].name == f
    ensures forall i :: 0 <= i < |reg'.elements| && reg'.elements[i].kind.Flag? ==>
      reg'.elements[i].name in reg'.longFlags && reg'.longFlags[reg'.elements[i].name] <= i
    ensures forall c :: c in reg'.shortFlags ==> c != '\0' && reg'.elements[reg'.shortFlags[c]].kind == Flag(c)
    ensures forall i :: 0 <= i < |reg'.elements| && reg'.elements[i].kind.Flag? && reg'.elements[i].kind.shortFlag != '\0' ==>
      reg'.elements[i].kind.shortFlag in reg'.shortFlags && reg'.shortFlags[reg'.elements[i].kind.shortFlag] <= i
  {
    LongFlagsKept(reg.elements, reg'.elements, reg.longFlags, reg'.longFlags, n, name, kind.Flag?);
    var c := if kind.Flag? then kind.shortFlag else '\0';
    ShortFlagsKept(reg.elements, reg'.elements, reg.shortFlags, reg'.shortFlags, n, kind, c != '\0');
  }

  lemma LongFlagsKept(els: seq<Element>, els': seq<Element>, flags: map<string, nat>, flags': map<string, nat>,
                      n: nat, name: string, isFlag: bool)
    requires n == |els| && |els'| == n + 1 && els'[n].kind.Flag? == isFlag && els'[n].name == name
    requires forall i :: 0 <= i < n ==> els'[i] == els[i]
    requires forall f :: f in flags ==> flags[f] < n
    requires forall f :: f in flags ==> els[flags[f]].kind.Flag? && els[flags[f]].name == f
    requires forall i :: 0 <= i < n && els[i].kind.Flag? ==> els[i].name in flags && flags[els[i].name] <= i
    requires flags' == if isFlag then Emplace(flags, name, n) else flags
    ensures forall f :: f in flags' ==> flags'[f] < n + 1
    ensures forall f :: f in flags' ==> els'[flags'[f]].kind.Flag? && els'[flags'[f]].name == f
    ensures forall i :: 0 <= i < n + 1 && els'[i].kind.Flag? ==> els'[i].name in flags' && flags'[els'[i].name] <= i
  {
    forall f | f in flags' ensures flags'[f] < n + 1 && els'[flags'[f]].kind.Flag? && els'[flags'[f]].name == f {
      if f in flags { assert flags'[f] == flags[f]; }
    }
    forall i | 0 <= i < n + 1 && els'[i].kind.Flag? ensures els'[i].name in flags' && flags'[els'[i].name] <= i {
      if i < n {
        assert els'[i] == els[i];
        assert els[i].name in flags;
      }
    }
  }

  lemma ShortFlagsKept(els: seq<Element>, els': seq<Element>, flags: map<char, nat>, flags': map<char, nat>,
                       n: nat, kind: Kind, hasShort: bool)
    requires n == |els| && |els'| == n + 1 && els'[n].kind == kind
    requires hasShort <==> kind.Flag? && kind.shortFlag != '\0'
    requires forall i :: 0 <= i < n ==> els'[i] == els[i]
    requires forall c :: c in flags ==> flags[c] < n
    requires forall c :: c in flags ==> c != '\0' && els[flags[c]].kind == Flag(c)
    requires forall i :: 0 <= i < n && els[i].kind.Flag? && els[i].kind.shortFlag != '\0' ==>
      els[i].kind.shortFlag in flags && flags[els[i].kind.shortFlag] <= i
    requires flags' == if hasShort then Emplace(flags, kind.shortFlag, n) else flags
    ensures forall c :: c in flags' ==> flags'[c] < n + 1
    ensures forall c :: c in flags' ==> c != '\0' && els'[flags'[c]].kind == Flag(c)
    ensures forall i :: 0 <= i < n + 1 && els'[i].kind.Flag? && els'[i].kind.shortFlag != '\0' ==>
      els'[i].kind.shortFlag in flags' && flags'[els'[i].kind.shortFlag] <= i
  {
    forall c | c in flags' ensures flags'[c] < n + 1 && c != '\0' && els'[flags'[c]].kind == Flag(c) {
      if c in flags { assert flags'[c] == flags[c]; }
    }
    forall i | 0 <= i < n + 1 && els'[i].kind.Flag? && els'[i].kind.shortFlag != '\0'
      ensures els'[i].kind.shortFlag in flags' && flags'[els'[i].kind.shortFlag] <= i
    {
      if i < n {
        assert els'[i] == els[i];
        assert els[i].kind.shortFlag in flags;
      }
    }
  }

  lemma ListRuleKept(reg: Registry, reg': Registry, n: nat, name: string, kind: Kind, field: Field)
    requires WellFormed(reg) && n == |reg.elements| && AddError(reg, name, kind, field).None?
    requires reg'.elements == reg.elements + [Element(false, name, kind, field)]
    requires reg'.haveMultiArg == (reg.haveMultiArg || field.StringList?)
    requires reg'.args == if kind.Arg? then reg.args + [n] else reg.args
    requires reg'.subcommands == reg.subcommands
    ensures reg'.haveMultiArg <==> exists i :: 0 <= i < |reg'.elements| && reg'.elements[i].field.StringList?
    ensures forall i :: 0 <= i < |reg'.elements| && reg'.elements[i].field.StringList? ==>
      reg'.elements[i].kind.Arg? && |reg'.args| > 0 && reg'.args[|reg'.args| - 1] == i && reg'.subcommands == []
  {
    var els := reg'.elements;
    assert els[n].field == field;
    if reg.haveMultiArg {
      var j :| 0 <= j < n && reg.elements[j].field.StringList?;
      assert els[j].field.StringList?;
    }
    if field.StringList? {
      assert els[n].field.StringList?;
    }
    if reg'.haveMultiArg {
      assert exists i :: 0 <= i < |els| && els[i].field.StringList?;
    } else {
      forall i | 0 <= i < |els| ensures !els[i].field.StringList? {
        if i < n { assert els[i] == reg.elements[i]; }
      }
    }
    forall i | 0 <= i < |els| && els[i].field.StringList?
      ensures els[i].kind.Arg? && |reg'.args| > 0 && reg'.args[|reg'.args| - 1] == i && reg'.subcommands == []
    {
      if i < n {
        assert els[i] == reg.elements[i];
        assert reg.haveMultiArg;
        assert !kind.Arg?;
      }
    }
  }

  /** A successful `add_subcommand` keeps the registry well formed. */
  lemma AddSubcommandKeepsWellFormed(reg: Registry, name: string)
    requires WellFormed(reg)
    ensures WellFormed(AddSubcommand(reg, name).1)
  {
    if !reg.haveMultiArg {
      assert forall i :: 0 <= i < |reg.elements| ==> !reg.elements[i].field.StringList?;
    }
  }

  /** Raising `is_set` flags, as `parse` does, keeps the registry well formed. */
  lemma MarksKeepWellFormed(reg: Registry, elements: seq<Element>)
    requires WellFormed(reg) && MarksOnly(reg.elements, elements)
    ensures WellFormed(reg.(elements := elements))
  {
    var els := reg.elements;
    assert SameAttrs(els, elements);
    SameAttrsKeepArgs(els, elements, reg.args);
    SameAttrsKeepLongFlags(els, elements, reg.longFlags);
    SameAttrsKeepShortFlags(els, elements, reg.shortFlags);
    SameAttrsKeepList(els, elements, reg.haveMultiArg, reg.args, reg.subcommands);
  }

  /** Elements with the same names, kinds and fields, in the same order. */
  predicate SameAttrs(a: seq<Element>, b: seq<Element>)
  {
    |a| == |b| && forall i :: 0 <= i < |a| ==> b[i].name == a[i].name && b[i].kind == a[i].kind && b[i].field == a[i].field
  }

  lemma SameAttrsKeepArgs(a: seq<Element>, b: seq<Element>, args: seq<nat>)
    requires ArgsFit(a, args) && SameAttrs(a, b)
    ensures ArgsFit(b, args)
  {
  }

  lemma SameAttrsKeepLongFlags(a: seq<Element>, b: seq<Element>, longFlags: map<string, nat>)
    requires LongFlagsFit(a, longFlags) && SameAttrs(a, b)
    ensures LongFlagsFit(b, longFlags)
  {
  }

  lemma SameAttrsKeepShortFlags(a: seq<Element>, b: seq<Element>, shortFlags: map<char, nat>)
    requires ShortFlagsFit(a, shortFlags) && SameAttrs(a, b)
    ensures ShortFlagsFit(b, shortFlags)
  {
  }

  lemma SameAttrsKeepList(a: seq<Element>, b: seq<Element>, haveMultiArg: bool, args: seq<nat>, subcommands: seq<string>)
    requires ListFits(a, haveMultiArg, args, subcommands) && SameAttrs(a, b)
    ensures ListFits(b, haveMultiArg, args, subcommands)
  {
    if haveMultiArg {
      var j :| 0 <= j < |a| && a[j].field.StringList?;
      assert b[j].field.StringList?;
    }
    if exists i :: 0 <= i < |b| && b[i].field.StringList? {
      var j :| 0 <= j < |b| && b[j].field.StringList?;
      assert a[j].field.StringList?;
    }
  }

  /**
   * `add` fails exactly when one of its four rules is broken, and then adds
   * nothing; otherwise it appends exactly one unset element, appends its index
   * to `args` for a positional, or registers its name (and its short
   * character, when there is one) unless already taken.
   */
  lemma AddOutcome(reg: Registry, name: string, kind: Kind, field: Field)
    ensures var (r, reg') := Add(reg, name, kind, field);
      && (r.Fail? <==> AddError(reg, name, kind, field).Some?)
      && (r.Fail? ==> reg' == reg && r.error == AddError(reg, name, kind, field).value)
      && (r.Pass? ==> reg'.elements == reg.elements + [Element(false, name, kind, field)])
      && (r.Pass? && kind.Arg? ==> reg'.args == reg.args + [|reg.elements|] && reg'.longFlags == reg.longFlags)
      && (r.Pass? && kind.Flag? ==> reg'.args == reg.args && name in reg'.longFlags)
      && (r.Pass? && kind.Flag? && name !in reg.longFlags ==> reg'.longFlags == reg.longFlags[name := |reg.elements|])
      && (r.Pass? && kind.Flag? && name in reg.longFlags ==> reg'.longFlags == reg.longFlags)
      && (r.Pass? && kind.Flag? && kind.shortFlag != '\0' ==> kind.shortFlag in reg'.shortFlags)
      && (r.Pass? && !(kind.Flag? && kind.shortFlag != '\0') ==> reg'.shortFlags == reg.shortFlags)
      && reg'.subcommands == reg.subcommands
  {
  }

  /** A String default outside its (non-empty) choices is refused. */
  lemma DefaultMustBeAChoice(reg: Registry, name: string, kind: Kind, out: Cell, d: string, choices: seq<string>)
    requires choices != [] && d !in choices
    ensures Add(reg, name, kind, String(out, Some(d), choices)) == (Fail(DefaultNotAChoice(name)), reg)
  {
  }

  /**
   * The string-list rules: once a string list is declared no positional and no
   * subcommand can be added; a string list cannot be a flag; and no string
   * list can be added once there is a subcommand.
   */
  lemma StringListRules(reg: Registry, name: string, kind: Kind, field: Field)
    requires WellFormed(reg)
    ensures (exists i :: 0 <= i < |reg.elements| && reg.elements[i].field.StringList?) ==>
      Add(reg, name, Arg, field).0.Fail? && AddSubcommand(reg, name).0 == Fail(ListWithSubcommand)
    ensures field.StringList? && kind.Flag? ==> Add(reg, name, kind, field).0.Fail?
    ensures field.StringList? && reg.subcommands != [] ==> Add(reg, name, kind, field).0.Fail?
  {
  }

  /** After a successful positional string list, the next positional or subcommand is refused. */
  lemma NothingAfterList(reg: Registry, list: string, out: Cell, choices: seq<string>, name: string, field: Field)
    requires WellFormed(reg)
    requires Add(reg, list, Arg, StringList(out, choices)).0.Pass?
    ensures var reg' := Add(reg, list, Arg, StringList(out, choices)).1;
      && Add(reg', name, Arg, field).0.Fail?
      && AddSubcommand(reg', name) == (Fail(ListWithSubcommand), reg')
  {
    var reg' := Add(reg, list, Arg, StringList(out, choices)).1;
    AddKeepsWellFormed(reg, list, Arg, StringList(out, choices));
    assert reg'.elements[|reg.elements|].field.StringList?;
    StringListRules(reg', name, Arg, field);
  }

  /**
   * In a well-formed registry a name already used by a flag keeps mapping to
   * the first flag with that name: a later flag with it is never reached.
   */
  lemma FirstFlagWins(reg: Registry, name: string, c: char, field: Field, i: nat)
    requires WellFormed(reg) && i < |reg.elements|
    requires reg.elements[i].kind.Flag? && reg.elements[i].name == name
    ensures var reg' := Add(reg, name, Flag(c), field).1;
      name in reg'.longFlags && reg'.longFlags[name] == reg.longFlags[name] <= i
  {
  }

  // ---------------------------------------------------------------------
  // The pass after the scan
  // ---------------------------------------------------------------------

  /** An element the pass after the scan lets through. */
  predicate Settled(e: Element)
  {
    e.isSet || !FallbackOf(e.field).Missing?
  }

  /**
   * The pass after the scan succeeds exactly when every element from `i` on
   * is set or may stay unset, and otherwise reports the first that is neither.
   */
  lemma {:induction false} PostScanReportsFirstMissing(elements: seq<Element>, cells: map<Cell, Value>, i: nat)
    requires i <= |elements|
    decreases |elements| - i
    ensures var r := PostScan(elements, cells, i);
      && (r.0.Pass? <==> forall j :: i <= j < |elements| ==> Settled(elements[j]))
      && (r.0.Fail? ==>
            exists j :: i <= j < |elements| && !Settled(elements[j]) && r.0.error == MissingValue(elements[j].name)
              && forall k :: i <= k < j ==> Settled(elements[k]))
  {
    if i < |elements| {
      if elements[i].isSet {
        PostScanReportsFirstMissing(elements, cells, i + 1);
      } else {
        match FallbackOf(elements[i].field)
        case Keep => PostScanReportsFirstMissing(elements, cells, i + 1);
        case Reset(cell, v) => PostScanReportsFirstMissing(elements, cells[cell := v], i + 1);
        case Missing =>
      }
    }
  }

  /** The destinations of the elements from `i` on. */
  ghost function OutputsFrom(elements: seq<Element>, i: nat): set<Cell>
  {
    set j | i <= j < |elements| :: elements[j].field.output
  }

  /** No two elements share a destination. */
  predicate DistinctOutputs(elements: seq<Element>)
  {
    forall j, k :: 0 <= j < k < |elements| ==> elements[j].field.output != elements[k].field.output
  }

  lemma OutputsStep(elements: seq<Element>, i: nat)
    requires i < |elements|
    ensures OutputsFrom(elements, i) == {elements[i].field.output} + OutputsFrom(elements, i + 1)
  {
  }

  /**
   * What the pass after the scan writes: a successful pass leaves every unset
   * element holding its fallback (the default, an empty list, false); the
   * destinations of set elements and of unset optional ones stay as they were.
   */
  lemma {:induction false} PostScanValues(elements: seq<Element>, cells: map<Cell, Value>, i: nat)
    requires i <= |elements| && DistinctOutputs(elements)
    decreases |elements| - i
    ensures var r := PostScan(elements, cells, i);
      && (r.0.Pass? ==> forall j :: i <= j < |elements| && !elements[j].isSet && FallbackOf(elements[j].field).Reset? ==>
            elements[j].field.output in r.1 && r.1[elements[j].field.output] == FallbackOf(elements[j].field).value)
      && (forall j :: i <= j < |elements| && (elements[j].isSet || FallbackOf(elements[j].field).Keep?) ==>
            Untouched(cells, r.1, elements[j].field.output))
  {
    if i < |elements| {
      var e := elements[i];
      assert forall j :: i < j < |elements| ==> elements[j].field.output != e.field.output;
      if e.isSet {
        PostScanValues(elements, cells, i + 1);
        PostScanLeavesOthers(elements, cells, i + 1);
      } else {
        match FallbackOf(e.field)
        case Keep =>
          PostScanValues(elements, cells, i + 1);
          PostScanLeavesOthers(elements, cells, i + 1);
        case Reset(cell, v) =>
          PostScanValues(elements, cells[cell := v], i + 1);
          PostScanLeavesOthers(elements, cells[cell := v], i + 1);
          assert cell !in OutputsFrom(elements, i + 1);
        case Missing =>
      }
    }
  }

  // ---------------------------------------------------------------------
  // The scan
  // ---------------------------------------------------------------------

  /** Raising `is_set` flags changes no name, kind or field, hence no destination. */
  lemma MarksOnlyFacts(a: seq<Element>, b: seq<Element>)
    requires MarksOnly(a, b)
    ensures forall i :: 0 <= i < |a| ==> b[i].name == a[i].name && b[i].kind == a[i].kind && b[i].field == a[i].field
    ensures forall i :: 0 <= i < |a| && a[i].field.Boolean? ==> b[i] == a[i]
    ensures forall i :: 0 <= i < |a| && a[i].isSet ==> b[i].isSet
    ensures OutputsFrom(a, 0) == OutputsFrom(b, 0)
    ensures DistinctOutputs(a) <==> DistinctOutputs(b)
  {
  }

  /** The state a step leaves, whatever kind of step it is. */
  function StepCells(r: Step): map<Cell, Value>
  {
    match r
    case Next(c') => c'.cells
    case Abort(_, _, cells) => cells
    case Stop(_, _, _, cells) => cells
  }

  lemma StoreFrame(words: seq<string>, elements: seq<Element>, cells: map<Cell, Value>, ei: nat, argIndex: nat, value: string, vi: nat)
    requires ei < |elements| && vi <= |words|
    ensures OnlyAt(cells, StepCells(Store(words, elements, cells, ei, argIndex, value, vi)), elements[ei].field.output)
  {
  }

  lemma SelectFrame(words: seq<string>, elements: seq<Element>, cells: map<Cell, Value>, ei: nat, argIndex: nat, word: string, wi: nat)
    requires ei < |elements| && wi <= |words|
    ensures OnlyAt(cells, StepCells(Select(words, elements, cells, ei, argIndex, word, wi)), elements[ei].field.output)
  {
    var e := elements[ei];
    if e.kind.Flag? && e.field.Boolean? && !e.field.requireValue {
    } else if e.kind.Flag? && wi == |words| {
    } else if e.kind.Flag? {
      StoreFrame(words, elements, cells, ei, argIndex, words[wi], wi + 1);
    } else {
      StoreFrame(words, elements, cells, ei, argIndex, word, wi);
    }
  }

  /** One turn of the loop writes only the destinations of elements. */
  lemma StepFrame(s: Schema, words: seq<string>, c: Cursor)
    requires InScan(s, words, c) && c.wordI < |words|
    ensures SameOutside(c.cells, StepCells(ScanStep(s, words, c)), OutputsFrom(c.elements, 0))
  {
    match RouteOf(s, |c.elements|, words[c.wordI], c.argIndex)
    case Use(ei, argIndex) =>
      assert ScanStep(s, words, c) == Select(words, c.elements, c.cells, ei, argIndex, words[c.wordI], c.wordI + 1);
      SelectFrame(words, c.elements, c.cells, ei, argIndex, words[c.wordI], c.wordI + 1);
      assert c.elements[ei].field.output in OutputsFrom(c.elements, 0);
    case Refuse(_) =>
    case ToSubcommand =>
  }

  /** The scan writes only the destinations of elements. */
  lemma {:induction false} ScanFrame(s: Schema, words: seq<string>, c: Cursor)
    requires InScan(s, words, c)
    decreases |words| - c.wordI
    ensures SameOutside(c.cells, Scan(s, words, c).cells, OutputsFrom(c.elements, 0))
  {
    if c.wordI < |words| {
      StepFrame(s, words, c);
      match ScanStep(s, words, c)
      case Abort(_, _, _) =>
      case Stop(_, _, _, _) =>
      case Next(c') =>
        ScanFrame(s, words, c');
        MarksOnlyFacts(c.elements, c'.elements);
    }
  }

  /**
   * `words` is the words before the subcommand, the subcommand (a word that
   * does not start with '-'), and the words kept for it.
   */
  predicate SplitAt(words: seq<string>, sub: (string, seq<string>))
  {
    var j := |words| - |sub.1| - 1;
    && 0 <= j
    && words[j] == sub.0 && !StartsWithDash(sub.0)
    && words == words[..j] + [sub.0] + sub.1
  }

  /**
   * When the scan stops at a subcommand there are subcommands, and the
   * subcommand splits the words from the cursor on.
   */
  lemma {:induction false} ScanStops(s: Schema, words: seq<string>, c: Cursor)
    requires InScan(s, words, c)
    decreases |words| - c.wordI
    ensures var r := Scan(s, words, c);
      r.Finished? && r.sub.Some? ==>
        s.subcommands != [] && SplitAt(words, r.sub.value) && |r.sub.value.1| < |words| - c.wordI
  {
    if c.wordI < |words| {
      match ScanStep(s, words, c)
      case Abort(_, _, _) =>
      case Stop(w, rest, _, _) =>
        assert RouteOf(s, |c.elements|, words[c.wordI], c.argIndex) == ToSubcommand;
        assert w == words[c.wordI] && rest == words[c.wordI + 1..];
        assert words == words[..c.wordI] + [w] + rest;
      case Next(c') =>
        ScanStops(s, words, c');
    }
  }

  /** `parse` writes nothing but the destinations of its elements. */
  lemma ParseFrame(s: Schema, words: seq<string>, elements: seq<Element>, cells: map<Cell, Value>)
    requires InScan(s, words, StartCursor(elements, cells))
    ensures SameOutside(cells, ParseRun(s, words, elements, cells).cells, OutputsFrom(elements, 0))
  {
    var c := StartCursor(elements, cells);
    ScanFrame(s, words, c);
    match Scan(s, words, c)
    case Failed(_, _, _) =>
    case Finished(els, cells', _) =>
      MarksOnlyFacts(elements, els);
      PostScanLeavesOthers(els, cells', 0);
  }

  lemma {:induction false} PostScanLeavesOthers(elements: seq<Element>, cells: map<Cell, Value>, i: nat)
    requires i <= |elements|
    decreases |elements| - i
    ensures SameOutside(cells, PostScan(elements, cells, i).1, OutputsFrom(elements, i))
  {
    if i < |elements| && !elements[i].isSet {
      match FallbackOf(elements[i].field)
      case Keep => PostScanLeavesOthers(elements, cells, i + 1);
      case Reset(cell, v) =>
        PostScanLeavesOthers(elements, cells[cell := v], i + 1);
        OutputsStep(elements, i);
      case Missing =>
    } else if i < |elements| {
      PostScanLeavesOthers(elements, cells, i + 1);
    }
  }

  /**
   * When `parse` stops at a subcommand there are subcommands, and the words
   * are split as the words before it, the subcommand, and the words kept
   * for it.
   */
  lemma SubcommandSplit(s: Schema, words: seq<string>, elements: seq<Element>, cells: map<Cell, Value>)
    requires InScan(s, words, StartCursor(elements, cells))
    ensures var run := ParseRun(s, words, elements, cells);
      run.sub.Some? ==> s.subcommands != [] && SplitAt(words, run.sub.value)
  {
    ScanStops(s, words, StartCursor(elements, cells));
    RunOfScan(s, words, elements, cells);
  }

  /** What `parse` reports, in terms of how the scan ended. */
  lemma RunOfScan(s: Schema, words: seq<string>, elements: seq<Element>, cells: map<Cell, Value>)
    requires InScan(s, words, StartCursor(elements, cells))
    ensures var sc := Scan(s, words, StartCursor(elements, cells));
      var run := ParseRun(s, words, elements, cells);
      && (sc.Failed? ==> run == Run(Fail(sc.error), sc.elements, sc.cells, None))
      && (sc.Finished? ==>
            var post := PostScan(sc.elements, sc.cells, 0);
            run == Run(post.0, sc.elements, post.1, sc.sub))
  {
  }

  /** Without subcommands `parse` never stops early. */
  lemma NoSubcommandsNeverStops(s: Schema, words: seq<string>, elements: seq<Element>, cells: map<Cell, Value>)
    requires InScan(s, words, StartCursor(elements, cells)) && s.subcommands == []
    ensures ParseRun(s, words, elements, cells).sub.None?
  {
    SubcommandSplit(s, words, elements, cells);
  }

  /**
   * A Boolean with `require_value` that starts unset makes every `parse`
   * fail; when the scan itself finishes and no earlier element is missing,
   * the failure reported is that Boolean's missing value.
   */
  lemma RequiredBooleanAlwaysFails(s: Schema, words: seq<string>, elements: seq<Element>, cells: map<Cell, Value>, i: nat)
    requires InScan(s, words, StartCursor(elements, cells))
    requires i < |elements| && elements[i].field.Boolean? && elements[i].field.requireValue && !elements[i].isSet
    ensures ParseRun(s, words, elements, cells).outcome.Fail?
    ensures Scan(s, words, StartCursor(elements, cells)).Finished? && (forall j :: 0 <= j < i ==> Settled(elements[j])) ==>
      ParseRun(s, words, elements, cells).outcome == Fail(MissingValue(elements[i].name))
  {
    match Scan(s, words, StartCursor(elements, cells))
    case Failed(_, _, _) =>
    case Finished(els, cells', _) =>
      MarksOnlyFacts(elements, els);
      assert !Settled(els[i]);
      PostScanReportsFirstMissing(els, cells', 0);
      if forall j :: 0 <= j < i ==> Settled(elements[j]) {
        assert forall j :: 0 <= j < i ==> Settled(els[j]);
        var j :| 0 <= j < |els| && !Settled(els[j]) && PostScan(els, cells', 0).0.error == MissingValue(els[j].name)
          && forall k :: 0 <= k < j ==> Settled(els[k]);
        assert j == i;
      }
  }

  /**
   * A plain Boolean that starts unset ends false after every successful
   * `parse`, whether or not its flag was given: the flag writes true but
   * leaves `is_set` down, and the pass after the scan then writes false.
   */
  lemma PlainBooleanEndsFalse(s: Schema, words: seq<string>, elements: seq<Element>, cells: map<Cell, Value>, i: nat)
    requires InScan(s, words, StartCursor(elements, cells)) && DistinctOutputs(elements)
    requires i < |elements| && elements[i].field.Boolean? && !elements[i].field.requireValue && !elements[i].isSet
    ensures var run := ParseRun(s, words, elements, cells);
      run.outcome.Pass? ==> elements[i].field.output in run.cells && run.cells[elements[i].field.output] == VBool(false)
  {
    match Scan(s, words, StartCursor(elements, cells))
    case Failed(_, _, _) =>
    case Finished(els, cells', _) =>
      MarksOnlyFacts(elements, els);
      assert els[i] == elements[i];
      PostScanValues(els, cells', 0);
  }

  /**
   * After a successful `parse` every element left unset holds its fallback:
   * a String or Int its default, a string list nothing, a plain Boolean false.
   */
  lemma DefaultsMaterialized(s: Schema, words: seq<string>, elements: seq<Element>, cells: map<Cell, Value>)
    requires InScan(s, words, StartCursor(elements, cells)) && DistinctOutputs(elements)
    ensures var run := ParseRun(s, words, elements, cells);
      run.outcome.Pass? ==>
        forall j :: 0 <= j < |run.elements| && !run.elements[j].isSet && FallbackOf(run.elements[j].field).Reset? ==>
          run.elements[j].field.output in run.cells
          && run.cells[run.elements[j].field.output] == FallbackOf(run.elements[j].field).value
  {
    match Scan(s, words, StartCursor(elements, cells))
    case Failed(_, _, _) =>
    case Finished(els, cells', _) =>
      MarksOnlyFacts(elements, els);
      PostScanValues(els, cells', 0);
  }

  // ---------------------------------------------------------------------
  // Positionals, flags and values
  // ---------------------------------------------------------------------

  /** Every positional is a String without choices, and no two write the same destination. */
  predicate PlainArgs(s: Schema, elements: seq<Element>)
  {
    && (forall k :: 0 <= k < |s.args| ==>
          s.args[k] < |elements| && elements[s.args[k]].kind.Arg?
          && elements[s.args[k]].field.String? && elements[s.args[k]].field.choices == [])
    && (forall j, k :: 0 <= j < k < |s.args| ==> elements[s.args[j]].field.output != elements[s.args[k]].field.output)
  }

  /** The positional words: none starts with '-'. */
  predicate NoDash(words: seq<string>)
  {
    forall k :: 0 <= k < |words| ==> !StartsWithDash(words[k])
  }

  /** The destinations of the positionals from slot `i` on. */
  ghost function ArgOutputsFrom(s: Schema, elements: seq<Element>, i: nat): set<Cell>
  {
    set k | i <= k < |s.args| && s.args[k] < |elements| :: elements[s.args[k]].field.output
  }

  /** Elements that differ at most in `is_set`. */
  predicate SameShape(a: seq<Element>, b: seq<Element>)
  {
    |a| == |b| && forall i :: 0 <= i < |a| ==> b[i].field == a[i].field && b[i].kind == a[i].kind
  }

  function Min(a: nat, b: nat): nat { if a <= b then a else b }

  /** A non-dash word at a free String slot without choices is stored and marked set. */
  lemma PositionalWord(s: Schema, words: seq<string>, c: Cursor)
    requires InScan(s, words, c) && c.wordI < |words| && !StartsWithDash(words[c.wordI]) && c.argIndex < |s.args|
    requires var e := c.elements[s.args[c.argIndex]]; e.kind.Arg? && e.field.String? && e.field.choices == []
    ensures var ei := s.args[c.argIndex];
      ScanStep(s, words, c)
        == Next(Cursor(c.wordI + 1, c.argIndex + 1, MarkSet(c.elements, ei), c.cells[c.elements[ei].field.output := VString(words[c.wordI])]))
  {
    PositionalStep(s, words, c);
  }

  /** Over positional words the scan writes only the destinations of the slots from `c.argIndex` on. */
  lemma {:induction false} ScanPositionalFrame(s: Schema, words: seq<string>, base: seq<Element>, c: Cursor)
    requires InScan(s, words, c) && PlainArgs(s, base) && SameShape(base, c.elements) && NoDash(words)
    requires c.wordI == c.argIndex
    decreases |words| - c.wordI
    ensures SameOutside(c.cells, Scan(s, words, c).cells, ArgOutputsFrom(s, base, c.wordI))
  {
    if c.wordI < |words| && c.argIndex < |s.args| {
      var ei := s.args[c.argIndex];
      var out := base[ei].field.output;
      PositionalWord(s, words, c);
      var c' := Cursor(c.wordI + 1, c.argIndex + 1, MarkSet(c.elements, ei), c.cells[out := VString(words[c.wordI])]);
      ScanPositionalFrame(s, words, base, c');
      var r := Scan(s, words, c');
      forall x | x !in ArgOutputsFrom(s, base, c.wordI)
        ensures Untouched(c.cells, r.cells, x)
      {
        assert x != out by { assert out in ArgOutputsFrom(s, base, c.wordI); }
        assert x !in ArgOutputsFrom(s, base, c.wordI + 1);
      }
    }
  }

  /** From slot `c.argIndex`, with one slot per word so far, each word fills the next positional in order. */
  lemma {:induction false} ScanPositionalValues(s: Schema, words: seq<string>, base: seq<Element>, c: Cursor)
    requires InScan(s, words, c) && PlainArgs(s, base) && SameShape(base, c.elements) && NoDash(words)
    requires c.wordI == c.argIndex
    decreases |words| - c.wordI
    ensures var r := Scan(s, words, c);
      forall k :: c.wordI <= k < Min(|words|, |s.args|) ==>
        Holds(r.cells, base[s.args[k]].field.output, VString(words[k])) && r.elements[s.args[k]].isSet
  {
    if c.wordI < |words| && c.argIndex < |s.args| {
      var ei := s.args[c.argIndex];
      var out := base[ei].field.output;
      PositionalWord(s, words, c);
      var c' := Cursor(c.wordI + 1, c.argIndex + 1, MarkSet(c.elements, ei), c.cells[out := VString(words[c.wordI])]);
      ScanPositionalValues(s, words, base, c');
      ScanPositionalFrame(s, words, base, c');
      var r := Scan(s, words, c');
      assert Scan(s, words, c) == r;
      MarksOnlyFacts(c'.elements, r.elements);
      assert out !in ArgOutputsFrom(s, base, c.wordI + 1);
      assert Untouched(c'.cells, r.cells, out);
      assert Holds(r.cells, out, VString(words[c.wordI])) && r.elements[ei].isSet;
    }
  }

  /**
   * How the scan over positional words ends: at the end of the words while
   * slots remain; otherwise the word past the last slot is the subcommand
   * when there are subcommands and an extra argument when there are none.
   */
  lemma {:induction false} ScanPositionalEnd(s: Schema, words: seq<string>, base: seq<Element>, c: Cursor)
    requires InScan(s, words, c) && PlainArgs(s, base) && SameShape(base, c.elements) && NoDash(words)
    requires c.wordI == c.argIndex
    decreases |words| - c.wordI
    ensures var r := Scan(s, words, c);
      && (|words| <= |s.args| ==> r.Finished? && r.sub.None?)
      && (|words| > |s.args| && s.subcommands == [] ==> r.Failed? && r.error == ExtraArgument(words[|s.args|]))
      && (|words| > |s.args| && s.subcommands != [] ==>
            r.Finished? && r.sub == Some((words[|s.args|], words[|s.args| + 1..])))
  {
    if c.wordI < |words| {
      if c.argIndex < |s.args| {
        var ei := s.args[c.argIndex];
        PositionalWord(s, words, c);
        var c' := Cursor(c.wordI + 1, c.argIndex + 1, MarkSet(c.elements, ei), c.cells[c.elements[ei].field.output := VString(words[c.wordI])]);
        ScanPositionalEnd(s, words, base, c');
      } else {
        assert !StartsWithDash(words[c.wordI]);
        assert RouteOf(s, |c.elements|, words[c.wordI], c.argIndex) == (if s.subcommands != [] then ToSubcommand else Refuse(ExtraArgument(words[c.wordI])));
      }
    }
  }

  /**
   * With plain String positionals and non-dash words, the k-th word is the
   * k-th positional's value; past the positionals the next word is the
   * subcommand, with the rest kept for it, or an extra argument.
   */
  lemma PositionalsInOrder(s: Schema, words: seq<string>, elements: seq<Element>, cells: map<Cell, Value>)
    requires InScan(s, words, StartCursor(elements, cells)) && PlainArgs(s, elements) && NoDash(words)
    requires DistinctOutputs(elements)
    ensures var run := ParseRun(s, words, elements, cells);
      && (run.outcome.Pass? ==> forall k :: 0 <= k < Min(|words|, |s.args|) ==>
            Holds(run.cells, elements[s.args[k]].field.output, VString(words[k])))
      && (|words| > |s.args| && s.subcommands == [] ==> run.outcome == Fail(ExtraArgument(words[|s.args|])))
      && (|words| > |s.args| && s.subcommands != [] ==> run.sub == Some((words[|s.args|], words[|s.args| + 1..])))
  {
    var c := StartCursor(elements, cells);
    ScanPositionalValues(s, words, elements, c);
    ScanPositionalEnd(s, words, elements, c);
    match Scan(s, words, c)
    case Failed(_, _, _) =>
    case Finished(els, cells', _) =>
      MarksOnlyFacts(elements, els);
      PostScanValues(els, cells', 0);
  }

  /**
   * The positions of the words the scan from `c` binds to positional slots,
   * in order: the words without a leading '-' at which a turn starts and
   * goes on. A flag's value word is consumed inside the flag's turn, so it
   * is never one of them.
   */
  function ArgWords(s: Schema, words: seq<string>, c: Cursor): seq<nat>
    requires InScan(s, words, c)
    decreases |words| - c.wordI
  {
    if c.wordI == |words| then []
    else
      match ScanStep(s, words, c)
      case Next(c') => (if StartsWithDash(words[c.wordI]) then [] else [c.wordI]) + ArgWords(s, words, c')
      case _ => []
  }

  /** The key a dash word is looked up under in `long_flags`. */
  function FlagKey(word: string): string
  {
    if IsLong(word) then word[2..] else word
  }

  /** The destination of positional slot `k`. */
  function SlotOutput(s: Schema, base: seq<Element>, k: nat): Cell
    requires k < |s.args| && s.args[k] < |base|
  {
    base[s.args[k]].field.output
  }

  /**
   * Only positional slots write their destinations: the slots name distinct
   * elements, no flag names a slot's element, and no other element shares a
   * slot's destination.
   */
  predicate SeparateSlots(s: Schema, base: seq<Element>)
  {
    && Fits(s, |base|)
    && (forall k :: 0 <= k < |s.args| ==> base[s.args[k]].kind.Arg?)
    && (forall k, l :: 0 <= k < l < |s.args| ==> s.args[k] != s.args[l])
    && (forall f, k :: f in s.longFlags && 0 <= k < |s.args| ==> s.longFlags[f] != s.args[k])
    && (forall i, k :: 0 <= i < |base| && 0 <= k < |s.args| && i != s.args[k] ==>
          base[i].field.output != base[s.args[k]].field.output)
  }

  /** A registry that `add` built, with distinct destinations, keeps its slots separate. */
  lemma WellFormedSlots(reg: Registry)
    requires WellFormed(reg) && DistinctOutputs(reg.elements)
    ensures SeparateSlots(SchemaOf(reg), reg.elements)
  {
    var els := reg.elements;
    forall i, k | 0 <= i < |els| && 0 <= k < |reg.args| && i != reg.args[k]
      ensures els[i].field.output != els[reg.args[k]].field.output
    {
      if i < reg.args[k] {
        assert els[i].field.output != els[reg.args[k]].field.output;
      } else {
        assert els[reg.args[k]].field.output != els[i].field.output;
      }
    }
  }

  /** The destinations a scan at slot `argIndex` may still write: those of flags, and of slots from `argIndex` on. */
  ghost function Writable(s: Schema, base: seq<Element>, argIndex: nat): set<Cell>
  {
    (set f | f in s.longFlags && s.longFlags[f] < |base| :: base[s.longFlags[f]].field.output)
    + (set k | argIndex <= k < |s.args| && s.args[k] < |base| :: base[s.args[k]].field.output)
  }

  /**
   * Where a word is routed: a dash word to the element `long_flags` holds
   * under its key, keeping the slot cursor; any other word to slot
   * `argIndex`, moving to the next slot.
   */
  lemma RouteFacts(s: Schema, n: nat, word: string, argIndex: nat)
    requires Fits(s, n) && argIndex <= |s.args|
    ensures var rt := RouteOf(s, n, word, argIndex);
      && (rt.Use? && StartsWithDash(word) ==>
            FlagKey(word) in s.longFlags && rt.ei == s.longFlags[FlagKey(word)] && rt.argIndex == argIndex)
      && (rt.Use? && !StartsWithDash(word) ==>
            argIndex < |s.args| && rt.ei == s.args[argIndex] && rt.argIndex == argIndex + 1)
  {
  }

  /**
   * A turn writes only the destination of the element its word is routed
   * to, and goes on at the slot the route gives; a refused word or a
   * subcommand writes nothing and ends the scan.
   */
  lemma StepWrites(s: Schema, words: seq<string>, c: Cursor)
    requires InScan(s, words, c) && c.wordI < |words|
    ensures var r := ScanStep(s, words, c); var rt := RouteOf(s, |c.elements|, words[c.wordI], c.argIndex);
      && (rt.Use? ==> OnlyAt(c.cells, StepCells(r), c.elements[rt.ei].field.output))
      && (rt.Use? && r.Next? ==> r.cursor.argIndex == rt.argIndex)
      && (!rt.Use? ==> StepCells(r) == c.cells && !r.Next?)
  {
    var word := words[c.wordI];
    var rt := RouteOf(s, |c.elements|, word, c.argIndex);
    if rt.Use? {
      assert ScanStep(s, words, c) == Select(words, c.elements, c.cells, rt.ei, rt.argIndex, word, c.wordI + 1);
      SelectFrame(words, c.elements, c.cells, rt.ei, rt.argIndex, word, c.wordI + 1);
    }
  }

  /** A positional String slot that takes its word stores it and is marked set. */
  lemma StepStoresSlot(s: Schema, words: seq<string>, c: Cursor)
    requires InScan(s, words, c) && c.wordI < |words| && !StartsWithDash(words[c.wordI]) && c.argIndex < |s.args|
    requires c.elements[s.args[c.argIndex]].kind.Arg? && c.elements[s.args[c.argIndex]].field.String?
    ensures var r := ScanStep(s, words, c); var ei := s.args[c.argIndex];
      r.Next? ==>
        && r.cursor.cells == c.cells[c.elements[ei].field.output := VString(words[c.wordI])]
        && r.cursor.elements[ei].isSet
  {
    PositionalStep(s, words, c);
  }

  /** The element a word is routed to writes a destination the scan may still write. */
  lemma RoutedWritable(s: Schema, base: seq<Element>, word: string, argIndex: nat, rt: Route)
    requires Fits(s, |base|) && argIndex <= |s.args| && rt == RouteOf(s, |base|, word, argIndex) && rt.Use?
    ensures base[rt.ei].field.output in Writable(s, base, argIndex)
  {
    RouteFacts(s, |base|, word, argIndex);
    if StartsWithDash(word) {
      var f := FlagKey(word);
      assert f in s.longFlags && s.longFlags[f] < |base|;
    } else {
      assert argIndex <= argIndex < |s.args| && s.args[argIndex] < |base|;
    }
  }

  lemma WritableShrinks(s: Schema, base: seq<Element>, a: nat, b: nat)
    requires a <= b
    ensures Writable(s, base, b) <= Writable(s, base, a)
  {
  }

  lemma {:induction false} ScanSlotFrame(s: Schema, words: seq<string>, base: seq<Element>, c: Cursor)
    requires InScan(s, words, c) && SameShape(base, c.elements)
    decreases |words| - c.wordI
    ensures SameOutside(c.cells, Scan(s, words, c).cells, Writable(s, base, c.argIndex))
  {
    if c.wordI < |words| {
      var word := words[c.wordI];
      var rt := RouteOf(s, |c.elements|, word, c.argIndex);
      RouteFacts(s, |c.elements|, word, c.argIndex);
      StepWrites(s, words, c);
      var r := ScanStep(s, words, c);
      if rt.Use? {
        RoutedWritable(s, base, word, c.argIndex, rt);
        var out := base[rt.ei].field.output;
        assert c.elements[rt.ei].field.output == out;
        if r.Next? {
          var c' := r.cursor;
          MarksOnlyFacts(c.elements, c'.elements);
          ScanSlotFrame(s, words, base, c');
          WritableShrinks(s, base, c.argIndex, c'.argIndex);
          var final := Scan(s, words, c').cells;
          assert Scan(s, words, c).cells == final;
          forall x | x !in Writable(s, base, c.argIndex)
            ensures Untouched(c.cells, final, x)
          {
            assert x !in Writable(s, base, c'.argIndex);
            assert Untouched(c'.cells, final, x);
            assert x != out;
            assert Untouched(c.cells, c'.cells, x);
          }
        } else {
          assert Scan(s, words, c).cells == StepCells(r);
        }
      } else {
        assert Scan(s, words, c).cells == c.cells;
      }
    }
  }

  /** The scan from a cursor past slot `a` never writes slot `a` again. */
  lemma SlotKept(s: Schema, words: seq<string>, base: seq<Element>, c: Cursor, a: nat)
    requires InScan(s, words, c) && SameShape(base, c.elements) && SeparateSlots(s, base) && a < c.argIndex
    ensures Untouched(c.cells, Scan(s, words, c).cells, SlotOutput(s, base, a))
  {
    ScanSlotFrame(s, words, base, c);
    assert SlotOutput(s, base, a) !in Writable(s, base, c.argIndex);
  }

  /**
   * From any cursor, the words the scan binds to slots come in word order,
   * none starts with '-', and there are no more of them than free slots.
   */
  lemma {:induction false} ArgWordsShape(s: Schema, words: seq<string>, c: Cursor)
    requires InScan(s, words, c)
    decreases |words| - c.wordI
    ensures var p := ArgWords(s, words, c);
      && c.argIndex + |p| <= |s.args|
      && (forall k :: 0 <= k < |p| ==> c.wordI <= p[k] < |words| && !StartsWithDash(words[p[k]]))
      && (forall k, l :: 0 <= k < l < |p| ==> p[k] < p[l])
  {
    if c.wordI < |words| {
      RouteFacts(s, |c.elements|, words[c.wordI], c.argIndex);
      StepWrites(s, words, c);
      var r := ScanStep(s, words, c);
      if r.Next? {
        ArgWordsShape(s, words, r.cursor);
      }
    }
  }

  /** Slot `argIndex + k` holds the k-th bound word and is set, for every bound word whose slot is a String. */
  predicate SlotsHold(s: Schema, words: seq<string>, base: seq<Element>, els: seq<Element>, cells: map<Cell, Value>, argIndex: nat, p: seq<nat>)
  {
    forall k ::
      (&& 0 <= k < |p| && argIndex + k < |s.args| && p[k] < |words|
       && s.args[argIndex + k] < |base| && s.args[argIndex + k] < |els|
       && base[s.args[argIndex + k]].field.String?) ==>
        Holds(cells, SlotOutput(s, base, argIndex + k), VString(words[p[k]])) && els[s.args[argIndex + k]].isSet
  }

  lemma SlotsHoldCons(s: Schema, words: seq<string>, base: seq<Element>, els: seq<Element>, cells: map<Cell, Value>, argIndex: nat, w: nat, p: seq<nat>)
    requires argIndex < |s.args| && w < |words| && s.args[argIndex] < |base| && s.args[argIndex] < |els|
    requires base[s.args[argIndex]].field.String? ==>
      Holds(cells, SlotOutput(s, base, argIndex), VString(words[w])) && els[s.args[argIndex]].isSet
    requires SlotsHold(s, words, base, els, cells, argIndex + 1, p)
    ensures SlotsHold(s, words, base, els, cells, argIndex, [w] + p)
  {
    var q := [w] + p;
    forall k | 0 <= k < |q| && argIndex + k < |s.args| && q[k] < |words| && s.args[argIndex + k] < |base|
      && s.args[argIndex + k] < |els| && base[s.args[argIndex + k]].field.String?
      ensures Holds(cells, SlotOutput(s, base, argIndex + k), VString(words[q[k]])) && els[s.args[argIndex + k]].isSet
    {
      if k > 0 {
        assert q[k] == p[k - 1] && argIndex + k == (argIndex + 1) + (k - 1);
      }
    }
  }

  /**
   * From any cursor, the k-th word the scan binds to a slot is the value of
   * slot `argIndex + k`, which is marked set, when that slot is a String:
   * interleaved flags and their value words never shift a positional.
   */
  lemma {:induction false} ScanBindsInOrder(s: Schema, words: seq<string>, base: seq<Element>, c: Cursor)
    requires InScan(s, words, c) && SameShape(base, c.elements) && SeparateSlots(s, base)
    decreases |words| - c.wordI
    ensures var r := Scan(s, words, c); SlotsHold(s, words, base, r.elements, r.cells, c.argIndex, ArgWords(s, words, c))
  {
    if c.wordI < |words| {
      var step := ScanStep(s, words, c);
      if step.Next? {
        MarksOnlyFacts(c.elements, step.cursor.elements);
        ScanBindsInOrder(s, words, base, step.cursor);
        if StartsWithDash(words[c.wordI]) {
          FlagTurnHolds(s, words, base, c);
        } else {
          ArgTurnHolds(s, words, base, c);
        }
      }
    }
  }

  /** A flag's turn leaves the bound words and the slot cursor as they were. */
  lemma FlagTurnHolds(s: Schema, words: seq<string>, base: seq<Element>, c: Cursor)
    requires InScan(s, words, c) && c.wordI < |words| && StartsWithDash(words[c.wordI])
    requires ScanStep(s, words, c).Next?
    requires var c' := ScanStep(s, words, c).cursor; var r := Scan(s, words, c');
      SlotsHold(s, words, base, r.elements, r.cells, c'.argIndex, ArgWords(s, words, c'))
    ensures var r := Scan(s, words, c); SlotsHold(s, words, base, r.elements, r.cells, c.argIndex, ArgWords(s, words, c))
  {
    RouteFacts(s, |c.elements|, words[c.wordI], c.argIndex);
    StepWrites(s, words, c);
    var c' := ScanStep(s, words, c).cursor;
    assert c'.argIndex == c.argIndex;
    assert Scan(s, words, c) == Scan(s, words, c');
    assert ArgWords(s, words, c) == ArgWords(s, words, c');
  }

  /** A positional turn binds its word to slot `argIndex`, ahead of the words bound later. */
  lemma ArgTurnHolds(s: Schema, words: seq<string>, base: seq<Element>, c: Cursor)
    requires InScan(s, words, c) && SameShape(base, c.elements) && SeparateSlots(s, base)
    requires c.wordI < |words| && !StartsWithDash(words[c.wordI])
    requires ScanStep(s, words, c).Next?
    requires var c' := ScanStep(s, words, c).cursor; var r := Scan(s, words, c');
      SlotsHold(s, words, base, r.elements, r.cells, c'.argIndex, ArgWords(s, words, c'))
    ensures var r := Scan(s, words, c); SlotsHold(s, words, base, r.elements, r.cells, c.argIndex, ArgWords(s, words, c))
  {
    var word := words[c.wordI];
    RouteFacts(s, |c.elements|, word, c.argIndex);
    StepWrites(s, words, c);
    var c' := ScanStep(s, words, c).cursor;
    var r := Scan(s, words, c');
    assert Scan(s, words, c) == r;
    assert ArgWords(s, words, c) == [c.wordI] + ArgWords(s, words, c');
    var ei := s.args[c.argIndex];
    var out := SlotOutput(s, base, c.argIndex);
    MarksOnlyFacts(c.elements, c'.elements);
    MarksOnlyFacts(c'.elements, r.elements);
    SlotKept(s, words, base, c', c.argIndex);
    if base[ei].field.String? {
      StepStoresSlot(s, words, c);
    }
    SlotsHoldCons(s, words, base, r.elements, r.cells, c.argIndex, c.wordI, ArgWords(s, words, c'));
  }

  /**
   * `parse` on a registry `add` built, with distinct destinations, binds
   * positionals in declaration order whatever flags are interleaved: the
   * k-th word it binds to a slot, counting only words it does not consume
   * as a flag's value, is the value of `args[k]` when that is a String, and
   * the pass after the scan leaves it there.
   */
  lemma PositionalsBoundInOrder(reg: Registry, words: seq<string>, cells: map<Cell, Value>)
    requires WellFormed(reg) && DistinctOutputs(reg.elements)
    requires InScan(SchemaOf(reg), words, StartCursor(reg.elements, cells))
    ensures var s := SchemaOf(reg); var c := StartCursor(reg.elements, cells);
      var p := ArgWords(s, words, c); var run := ParseRun(s, words, reg.elements, cells);
      && |p| <= |s.args|
      && (forall k :: 0 <= k < |p| ==> p[k] < |words| && !StartsWithDash(words[p[k]]))
      && (forall k, l :: 0 <= k < l < |p| ==> p[k] < p[l])
      && (forall k :: 0 <= k < |p| && reg.elements[s.args[k]].field.String? ==>
            Holds(run.cells, reg.elements[s.args[k]].field.output, VString(words[p[k]])))
  {
    var s := SchemaOf(reg);
    var c := StartCursor(reg.elements, cells);
    WellFormedSlots(reg);
    ArgWordsShape(s, words, c);
    ScanBindsInOrder(s, words, reg.elements, c);
    SetSlotsSettle(s, words, reg.elements, cells, ArgWords(s, words, c));
  }

  /**
   * A flag between two positionals: "1 --x v 2" gives the first slot "1",
   * the flag "v" and the second slot "2".
   */
  lemma InterleavedFlagExample()
    ensures var a := Element(false, "a", Arg, String(0, None, []));
      var b := Element(false, "b", Arg, String(1, None, []));
      var x := Element(false, "x", Flag('\0'), String(2, None, []));
      var run := ParseRun(Schema(map["x" := 2], [0, 1], []), ["1", "--x", "v", "2"], [a, b, x], map[]);
      && run.outcome == Pass
      && run.cells == map[0 := VString("1"), 2 := VString("v"), 1 := VString("2")]
      && run.sub == None
  {
    var a := Element(false, "a", Arg, String(0, None, []));
    var b := Element(false, "b", Arg, String(1, None, []));
    var x := Element(false, "x", Flag('\0'), String(2, None, []));
    var s := Schema(map["x" := 2], [0, 1], []);
    var words := ["1", "--x", "v", "2"];
    var c0 := StartCursor([a, b, x], map[]);
    assert !StartsWithDash(words[0]) && IsLong(words[1]) && words[1][2..] == "x" && !StartsWithDash(words[3]);
    PositionalStep(s, words, c0);
    var c1 := Cursor(1, 1, [a.(isSet := true), b, x], map[0 := VString("1")]);
    assert ScanStep(s, words, c0) == Next(c1);
    LongStep(s, words, c1);
    var c2 := Cursor(3, 1, [a.(isSet := true), b, x.(isSet := true)], map[0 := VString("1"), 2 := VString("v")]);
    assert ScanStep(s, words, c1) == Next(c2);
    PositionalStep(s, words, c2);
    var els := [a.(isSet := true), b.(isSet := true), x.(isSet := true)];
    var c3 := Cursor(4, 2, els, map[0 := VString("1"), 2 := VString("v"), 1 := VString("2")]);
    assert ScanStep(s, words, c2) == Next(c3);
    assert Scan(s, words, c3) == Finished(els, c3.cells, None);
    assert Scan(s, words, c2) == Scan(s, words, c3);
    assert Scan(s, words, c1) == Scan(s, words, c2);
    assert Scan(s, words, c0) == Scan(s, words, c1);
    assert PostScan(els, c3.cells, 3) == (Pass, c3.cells);
    assert PostScan(els, c3.cells, 2) == PostScan(els, c3.cells, 3);
    assert PostScan(els, c3.cells, 1) == PostScan(els, c3.cells, 2);
    assert PostScan(els, c3.cells, 0) == PostScan(els, c3.cells, 1);
  }

  /** The pass after the scan leaves the destinations of slots the scan marked set. */
  lemma SetSlotsSettle(s: Schema, words: seq<string>, elements: seq<Element>, cells: map<Cell, Value>, p: seq<nat>)
    requires InScan(s, words, StartCursor(elements, cells)) && SeparateSlots(s, elements) && DistinctOutputs(elements)
    requires |p| <= |s.args| && forall k :: 0 <= k < |p| ==> p[k] < |words|
    requires var r := Scan(s, words, StartCursor(elements, cells)); SlotsHold(s, words, elements, r.elements, r.cells, 0, p)
    ensures forall k :: 0 <= k < |p| && elements[s.args[k]].field.String? ==>
      Holds(ParseRun(s, words, elements, cells).cells, elements[s.args[k]].field.output, VString(words[p[k]]))
  {
    var r := Scan(s, words, StartCursor(elements, cells));
    MarksOnlyFacts(elements, r.elements);
    assert |r.elements| == |elements|;
    if r.Finished? {
      PostScanValues(r.elements, r.cells, 0);
      forall k | 0 <= k < |p| && elements[s.args[k]].field.String?
        ensures Holds(PostScan(r.elements, r.cells, 0).1, elements[s.args[k]].field.output, VString(words[p[k]]))
      {
        var ei := s.args[k];
        assert 0 + k == k;
        assert Holds(r.cells, SlotOutput(s, elements, k), VString(words[p[k]])) && r.elements[ei].isSet;
        assert Untouched(r.cells, PostScan(r.elements, r.cells, 0).1, r.elements[ei].field.output);
      }
    } else {
      forall k | 0 <= k < |p| && elements[s.args[k]].field.String?
        ensures Holds(r.cells, elements[s.args[k]].field.output, VString(words[p[k]]))
      {
        assert 0 + k == k;
      }
    }
  }

  /**
   * The words the lookup refuses: an unknown "--name", a single-dash word
   * that is not two characters long, an unknown "-x", and a non-dash word
   * past the last positional when there are no subcommands. Each ends the
   * scan with its own error and changes nothing.
   */
  lemma LookupErrors(s: Schema, words: seq<string>, c: Cursor)
    requires InScan(s, words, c) && c.wordI < |words|
    ensures var w := words[c.wordI]; var r := ScanStep(s, words, c);
      && (IsLong(w) && w[2..] !in s.longFlags ==> r == Abort(UnknownLongFlag(w), c.elements, c.cells))
      && (StartsWithDash(w) && !IsLong(w) && |w| != 2 ==> r == Abort(InvalidShortFlag(w), c.elements, c.cells))
      && (StartsWithDash(w) && !IsLong(w) && |w| == 2 && w !in s.longFlags ==> r == Abort(UnknownShortFlag(w), c.elements, c.cells))
      && (!StartsWithDash(w) && c.argIndex == |s.args| && s.subcommands == [] ==> r == Abort(ExtraArgument(w), c.elements, c.cells))
  {
  }

  /**
   * The value checks of a store: a String or StringOpt value is stored
   * exactly when it is a valid choice, and is otherwise an invalid value; an
   * Int or IntOpt word that `stoi` rejects is an invalid integer, and one it
   * finds out of range is the uncaught `out_of_range`. A failed check
   * changes nothing.
   */
  lemma StoreErrors(words: seq<string>, elements: seq<Element>, cells: map<Cell, Value>, ei: nat, argIndex: nat, value: string, vi: nat)
    requires ei < |elements| && vi <= |words|
    ensures var f := elements[ei].field; var r := Store(words, elements, cells, ei, argIndex, value, vi);
      && ((f.String? || f.StringOpt?) ==> (r.Next? <==> ValidateChoice(value, f.choices)))
      && ((f.String? || f.StringOpt?) && !ValidateChoice(value, f.choices) ==>
            r == Abort(InvalidValue(value, elements[ei].name), elements, cells))
      && ((f.Int? || f.IntOpt?) ==> (r.Next? <==> Stoi(value).Converted?))
      && ((f.Int? || f.IntOpt?) && Stoi(value).InvalidArgument? ==> r == Abort(InvalidInteger(value), elements, cells))
      && ((f.Int? || f.IntOpt?) && Stoi(value).OutOfRange? ==> r == Abort(IntegerOutOfRange(value), elements, cells))
  {
  }

  /**
   * A short "-x" is looked up among the long names under "-x" itself: unless
   * some element is named "-x", it is an unknown short flag, whether or not a
   * flag declared 'x' as its short name.
   */
  lemma ShortFlagLookup(reg: Registry, words: seq<string>, c: Cursor, x: char)
    requires WellFormed(reg) && InScan(SchemaOf(reg), words, c)
    requires c.wordI < |words| && words[c.wordI] == ['-', x] && x != '-'
    requires forall i :: 0 <= i < |reg.elements| ==> reg.elements[i].name != ['-', x]
    ensures ScanStep(SchemaOf(reg), words, c) == Abort(UnknownShortFlag(['-', x]), c.elements, c.cells)
  {
    var word := words[c.wordI];
    assert !IsLong(word);
  }

  /**
   * "--name" naming a flag that takes a value: with no word after it the
   * value is missing; otherwise it consumes exactly the next word, which a
   * String stores when it is a valid choice.
   */
  lemma LongFlagTakesNextWord(s: Schema, words: seq<string>, c: Cursor, name: string)
    requires InScan(s, words, c) && c.wordI < |words| && words[c.wordI] == "--" + name && name in s.longFlags
    requires var e := c.elements[s.longFlags[name]];
      e.kind.Flag? && !e.field.StringList? && !(e.field.Boolean? && !e.field.requireValue)
    ensures var e := c.elements[s.longFlags[name]]; var r := ScanStep(s, words, c);
      && (c.wordI + 1 == |words| ==> r == Abort(MissingFlagValue("--" + name), c.elements, c.cells))
      && (r.Next? ==> r.cursor.wordI == c.wordI + 2 && r.cursor.argIndex == c.argIndex)
      && (e.field.String? && c.wordI + 1 < |words| ==>
            (r.Next? <==> ValidateChoice(words[c.wordI + 1], e.field.choices))
            && (r.Next? ==> Holds(r.cursor.cells, e.field.output, VString(words[c.wordI + 1])) && r.cursor.elements[s.longFlags[name]].isSet))
  {
    var word := words[c.wordI];
    assert IsLong(word) && word[2..] == name;
  }

  /**
   * A positional string list takes the words after the one that reached it,
   * up to the first that is not a valid choice: that word itself is never
   * stored. Parsing stops there with an invalid value, or at the end.
   */
  lemma ListArgDropsSelector(s: Schema, words: seq<string>, c: Cursor)
    requires InScan(s, words, c) && c.wordI < |words| && !StartsWithDash(words[c.wordI]) && c.argIndex < |s.args|
    requires c.elements[s.args[c.argIndex]].kind.Arg? && c.elements[s.args[c.argIndex]].field.StringList?
    ensures var e := c.elements[s.args[c.argIndex]];
      var k := FirstInvalid(words, c.wordI + 1, e.field.choices);
      var r := ScanStep(s, words, c);
      && Holds(StepCells(r), e.field.output, VStringList(words[c.wordI + 1..k]))
      && (r.Next? <==> k == |words|)
      && (r.Abort? <==> k < |words|)
      && (r.Abort? ==> r.error == InvalidValue(words[k], e.name))
  {
    var word := words[c.wordI];
    assert !IsLong(word);
    var ei := s.args[c.argIndex];
    PositionalStep(s, words, c);
    SelectArg(words, c.elements, c.cells, ei, c.argIndex + 1, word, c.wordI + 1);
    StoreList(words, c.elements, c.cells, ei, c.argIndex + 1, word, c.wordI + 1);
  }

  lemma SelectArg(words: seq<string>, elements: seq<Element>, cells: map<Cell, Value>, ei: nat, argIndex: nat, word: string, wi: nat)
    requires ei < |elements| && wi <= |words| && elements[ei].kind.Arg?
    ensures Select(words, elements, cells, ei, argIndex, word, wi) == Store(words, elements, cells, ei, argIndex, word, wi)
  {
  }

  lemma StoreList(words: seq<string>, elements: seq<Element>, cells: map<Cell, Value>, ei: nat, argIndex: nat, value: string, vi: nat)
    requires ei < |elements| && vi <= |words| && elements[ei].field.StringList?
    ensures var e := elements[ei];
      var k := FirstInvalid(words, vi, e.field.choices);
      var r := Store(words, elements, cells, ei, argIndex, value, vi);
      && Holds(StepCells(r), e.field.output, VStringList(words[vi..k]))
      && (r.Next? <==> k == |words|)
      && (r.Abort? <==> k < |words|)
      && (r.Abort? ==> r.error == InvalidValue(words[k], e.name))
  {
  }

  /** The two words "a", "b" given to a list positional store only "b". */
  lemma ListArgExample(out: Cell)
    ensures var e := Element(false, "files", Arg, StringList(out, []));
      var r := ParseRun(Schema(map[], [0], []), ["a", "b"], [e], map[]);
      r.outcome == Pass && r.cells == map[out := VStringList(["b"])]
  {
    var e := Element(false, "files", Arg, StringList(out, []));
    var s := Schema(map[], [0], []);
    var words := ["a", "b"];
    var c := StartCursor([e], map[]);
    assert FirstInvalid(words, 1, []) == 2;
    assert words[1..2] == ["b"];
    var c' := Cursor(2, 1, [e.(isSet := true)], map[out := VStringList(["b"])]);
    assert ScanStep(s, words, c) == Next(c');
    assert Scan(s, words, c) == Finished(c'.elements, c'.cells, None);
    assert PostScan(c'.elements, c'.cells, 0) == (Pass, c'.cells);
    assert ParseRun(s, words, [e], map[]) == Run(Pass, c'.elements, c'.cells, None);
  }

  /** An integer written out in decimal is read back by an Int or IntOpt element. */
  lemma IntRoundTrip(words: seq<string>, elements: seq<Element>, cells: map<Cell, Value>, ei: nat, argIndex: nat, n: Int32, vi: nat)
    requires ei < |elements| && vi <= |words|
    ensures var out := elements[ei].field.output; var r := Store(words, elements, cells, ei, argIndex, IntToString(n), vi);
      && (elements[ei].field.Int? ==> r == Next(Cursor(vi, argIndex, MarkSet(elements, ei), cells[out := VInt(n)])))
      && (elements[ei].field.IntOpt? ==> r == Next(Cursor(vi, argIndex, MarkSet(elements, ei), cells[out := VOptInt(Some(n))])))
  {
    StoiRoundTrip(n);
  }
}
