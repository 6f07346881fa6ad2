/**
 * Properties of engine A (include/argparse.hpp, src/argparse.cpp), proved
 * about the functions of module ArgParse that its `Parser` methods follow.
 */
module ArgParseProps {
  import opened Common
  import opened CText
  import opened ArgParse

  // ---------------------------------------------------------------------
  // Identifier grammar
  // ---------------------------------------------------------------------

  /**
   * `add_identifier` only ever records the index of the element being added:
   * every flag it leaves is an old one or maps to `index`, and `args` either
   * stays or gains `index`.
   */
  lemma RegisteredIndices(flags: map<string, nat>, args: seq<nat>, index: nat, identifier: string)
    ensures var r := RegisterIdentifier(flags, args, index, identifier);
      && flags.Keys <= r.flags.Keys
      && (forall f :: f in r.flags ==> (f in flags && r.flags[f] == flags[f]) || r.flags[f] == index)
      && (r.args == args || r.args == args + [index])
  {
    if CharAt(identifier, 0) == '-' {
      AliasesOnlyAdd(identifier, 0, flags, index);
    }
  }

  lemma {:induction false} AliasesOnlyAdd(identifier: string, begin: nat, flags: map<string, nat>, index: nat)
    requires begin <= |identifier|
    decreases |identifier| - begin
    ensures var r := RegisterAliases(identifier, begin, flags, index);
      && flags.Keys <= r.1.Keys
      && (forall f :: f in r.1 ==> (f in flags && r.1[f] == flags[f]) || r.1[f] == index)
  {
    var part := PartAt(identifier, begin);
    if AliasError(part).None? && part !in flags {
      var next := flags[part := index];
      match NextBegin(identifier, begin)
      case None =>
      case Some(b) => AliasesOnlyAdd(identifier, b, next, index);
    }
  }

  /** A non-dash identifier is accepted exactly when it is a label; it is appended to `args`. */
  lemma PositionalRegistration(flags: map<string, nat>, args: seq<nat>, index: nat, identifier: string)
    requires CharAt(identifier, 0) != '-'
    ensures var r := RegisterIdentifier(flags, args, index, identifier);
      && (r.outcome.Pass? <==> IsLabel(identifier))
      && r.flags == flags
      && r.args == (if IsLabel(identifier) then args + [index] else args)
      && (r.outcome.Fail? ==> r.outcome.error == InvalidIdentifier(identifier))
  {
  }

  /** Every alias in `parts` passes its own check, is new, and occurs once. */
  predicate AcceptableAliases(flags: map<string, nat>, parts: seq<string>)
  {
    && (forall k :: 0 <= k < |parts| ==> AliasError(parts[k]).None? && parts[k] !in flags)
    && (forall k, l :: 0 <= l < k < |parts| ==> parts[l] != parts[k])
  }

  /** `flags` with every alias of `parts` mapped to `index`. */
  function WithAliases(flags: map<string, nat>, parts: seq<string>, index: nat): map<string, nat>
  {
    flags + map p | p in parts :: index
  }

  /** The error `add_identifier` raises for a refused alias. */
  function Refusal(part: string): UsageError
  {
    match AliasError(part)
    case Some(e) => e
    case None => DuplicateFlag(part)
  }

  /** The alias loop of `add_identifier`, run over a list of aliases. */
  function RegisterParts(flags: map<string, nat>, parts: seq<string>, index: nat): (Outcome<UsageError>, map<string, nat>)
    decreases |parts|
  {
    if parts == [] then (Pass, flags)
    else if AliasError(parts[0]).Some? || parts[0] in flags then (Fail(Refusal(parts[0])), flags)
    else RegisterParts(flags[parts[0] := index], parts[1..], index)
  }

  /** How many leading aliases of `parts` that loop accepts. */
  function Accepted(flags: map<string, nat>, parts: seq<string>, index: nat): (k: nat)
    ensures k <= |parts|
    decreases |parts|
  {
    if parts == [] then 0
    else if AliasError(parts[0]).Some? || parts[0] in flags then 0
    else 1 + Accepted(flags[parts[0] := index], parts[1..], index)
  }

  /** Reading the aliases of an identifier one at a time is the loop over `Parts`. */
  lemma {:induction false} AliasesAreParts(identifier: string, begin: nat, flags: map<string, nat>, index: nat)
    requires begin <= |identifier|
    decreases |identifier| - begin
    ensures RegisterAliases(identifier, begin, flags, index) == RegisterParts(flags, Parts(identifier, begin), index)
  {
    var parts := Parts(identifier, begin);
    var part := PartAt(identifier, begin);
    assert parts[0] == part;
    if AliasError(part).None? && part !in flags {
      match NextBegin(identifier, begin)
      case None =>
        assert parts == [part];
        assert parts[1..] == [];
      case Some(b) =>
        assert parts[1..] == Parts(identifier, b);
        AliasesAreParts(identifier, b, flags[part := index], index);
    }
  }

  lemma AcceptableCons(flags: map<string, nat>, p: string, tail: seq<string>, index: nat)
    requires AliasError(p).None? && p !in flags
    requires AcceptableAliases(flags[p := index], tail)
    ensures AcceptableAliases(flags, [p] + tail)
  {
    var parts := [p] + tail;
    forall i | 0 <= i < |parts| ensures AliasError(parts[i]).None? && parts[i] !in flags {
      if i > 0 { assert parts[i] == tail[i - 1]; }
    }
    forall i, l | 0 <= l < i < |parts| ensures parts[l] != parts[i] {
      assert parts[i] == tail[i - 1];
      if l > 0 { assert parts[l] == tail[l - 1]; }
    }
  }

  lemma WithAliasesCons(flags: map<string, nat>, p: string, tail: seq<string>, index: nat)
    ensures WithAliases(flags, [p] + tail, index) == WithAliases(flags[p := index], tail, index)
  {
    var parts := [p] + tail;
    assert forall x :: x in parts <==> x == p || x in tail;
  }

  /**
   * The loop registers the accepted prefix of the aliases and keeps it when
   * it stops at a refused alias, whose refusal it raises.
   */
  lemma {:induction false} PartsRegistration(flags: map<string, nat>, parts: seq<string>, index: nat)
    ensures var k := Accepted(flags, parts, index);
      var r := RegisterParts(flags, parts, index);
      && AcceptableAliases(flags, parts[..k])
      && r.1 == WithAliases(flags, parts[..k], index)
      && (r.0.Pass? <==> k == |parts|)
      && (k < |parts| ==> AliasError(parts[k]).Some? || parts[k] in r.1)
      && (k < |parts| ==> r.0 == Fail(Refusal(parts[k])))
  {
    PartsAccepted(flags, parts, index);
    PartsOutcome(flags, parts, index);
  }

  /** The aliases the loop accepts are acceptable, and exactly they are registered. */
  lemma PartsAccepted(flags: map<string, nat>, parts: seq<string>, index: nat)
    ensures var k := Accepted(flags, parts, index);
      && AcceptableAliases(flags, parts[..k])
      && RegisterParts(flags, parts, index).1 == WithAliases(flags, parts[..k], index)
  {
    PartsAcceptable(flags, parts, index);
    PartsMapped(flags, parts, index);
  }

  lemma {:induction false} PartsAcceptable(flags: map<string, nat>, parts: seq<string>, index: nat)
    decreases |parts|
    ensures AcceptableAliases(flags, parts[..Accepted(flags, parts, index)])
  {
    if parts != [] && AliasError(parts[0]).None? && parts[0] !in flags {
      var p, tail := parts[0], parts[1..];
      var next := flags[p := index];
      PartsAcceptable(next, tail, index);
      var k' := Accepted(next, tail, index);
      assert Accepted(flags, parts, index) == k' + 1;
      assert parts[..k' + 1] == [p] + tail[..k'];
      AcceptableCons(flags, p, tail[..k'], index);
    } else {
      assert parts[..Accepted(flags, parts, index)] == [];
    }
  }

  lemma {:induction false} PartsMapped(flags: map<string, nat>, parts: seq<string>, index: nat)
    decreases |parts|
    ensures RegisterParts(flags, parts, index).1 == WithAliases(flags, parts[..Accepted(flags, parts, index)], index)
  {
    if parts != [] && AliasError(parts[0]).None? && parts[0] !in flags {
      var p, tail := parts[0], parts[1..];
      var next := flags[p := index];
      PartsMapped(next, tail, index);
      var k' := Accepted(next, tail, index);
      assert Accepted(flags, parts, index) == k' + 1;
      assert RegisterParts(flags, parts, index) == RegisterParts(next, tail, index);
      assert parts[..k' + 1] == [p] + tail[..k'];
      WithAliasesCons(flags, p, tail[..k'], index);
    } else {
      assert parts[..Accepted(flags, parts, index)] == [];
      assert WithAliases(flags, [], index) == flags;
    }
  }

  /** The loop passes exactly when it accepts every alias, and else raises the refusal of the first it does not. */
  lemma {:induction false} PartsOutcome(flags: map<string, nat>, parts: seq<string>, index: nat)
    decreases |parts|
    ensures var k := Accepted(flags, parts, index);
      var r := RegisterParts(flags, parts, index);
      && (r.0.Pass? <==> k == |parts|)
      && (k < |parts| ==> AliasError(parts[k]).Some? || parts[k] in r.1)
      && (k < |parts| ==> r.0 == Fail(Refusal(parts[k])))
  {
    if parts != [] && AliasError(parts[0]).None? && parts[0] !in flags {
      var tail := parts[1..];
      var next := flags[parts[0] := index];
      PartsOutcome(next, tail, index);
      var k' := Accepted(next, tail, index);
      assert Accepted(flags, parts, index) == k' + 1;
      assert RegisterParts(flags, parts, index) == RegisterParts(next, tail, index);
      if k' < |tail| { assert parts[k' + 1] == tail[k']; }
    }
  }

  /**
   * The alias loop succeeds exactly when every alias passes its check, is
   * new and occurs once, and then maps each alias to the new element's index.
   */
  lemma AliasRegistration(flags: map<string, nat>, parts: seq<string>, index: nat)
    ensures var r := RegisterParts(flags, parts, index);
      && (r.0.Pass? <==> AcceptableAliases(flags, parts))
      && (r.0.Pass? ==> r.1 == WithAliases(flags, parts, index))
  {
    PartsRegistration(flags, parts, index);
    var k := Accepted(flags, parts, index);
    assert parts[..|parts|] == parts;
    if k < |parts| && AcceptableAliases(flags, parts) {
      assert false;
    }
  }

  /**
   * `add_identifier` on a dashed identifier: it succeeds exactly when all
   * its aliases are acceptable, and then maps each to `index`; when it fails
   * it raises the refusal of the first bad alias, and the aliases before that
   * one stay mapped to `index`.
   */
  lemma FlagRegistration(flags: map<string, nat>, args: seq<nat>, index: nat, identifier: string)
    requires CharAt(identifier, 0) == '-'
    ensures var r := RegisterIdentifier(flags, args, index, identifier);
      var parts := Parts(identifier, 0);
      var k := Accepted(flags, parts, index);
      && r.args == args
      && (r.outcome.Pass? <==> AcceptableAliases(flags, parts))
      && (r.outcome.Pass? ==> r.flags == WithAliases(flags, parts, index))
      && (r.outcome.Fail? ==> k < |parts| && r.outcome.error == Refusal(parts[k]))
      && r.flags == WithAliases(flags, parts[..k], index)
  {
    AliasesAreParts(identifier, 0, flags, index);
    AliasRegistration(flags, Parts(identifier, 0), index);
    PartsRegistration(flags, Parts(identifier, 0), index);
  }

  /**
   * A part read as `-h` or `--help` by the alias loop makes `add_identifier`
   * fail. A `-h` written as a middle alias may escape this check, because
   * the loop reads that part together with what follows it (see
   * ReservedAliasEscapes).
   */
  lemma ReservedAliasRefused(flags: map<string, nat>, args: seq<nat>, index: nat, identifier: string, k: nat)
    requires CharAt(identifier, 0) == '-'
    requires k < |Parts(identifier, 0)|
    requires Parts(identifier, 0)[k] == "-h" || Parts(identifier, 0)[k] == "--help"
    ensures RegisterIdentifier(flags, args, index, identifier).outcome.Fail?
  {
    FlagRegistration(flags, args, index, identifier);
    assert AliasError(Parts(identifier, 0)[k]).Some?;
  }

  // ---------------------------------------------------------------------
  // How aliases are split and checked, as written
  // ---------------------------------------------------------------------

  /** `FindChar` skips a stretch of `s` that is a copy of a string without '|'. */
  lemma NoBarBefore(s: string, part: string, from: nat, to: nat)
    requires from <= to <= |s| && to - from == |part| && '|' !in part
    requires s[from..to] == part
    requires to == |s| || s[to] == '|'
    ensures FindChar(s, '|', from) == if to == |s| then None else Some(to)
  {
    forall k | from <= k < to ensures s[k] != '|' {
      assert s[k] == part[k - from];
    }
  }

  /** The alias at `from` when no '|' follows: the rest, and it is the last. */
  lemma LastAlias(id: string, from: nat, c: string)
    requires from <= |id| && id[from..] == c && '|' !in c
    ensures Parts(id, from) == [c]
  {
    NoBarBefore(id, c, from, |id|);
  }

  /**
   * The alias at `from` when the next '|' is the one after `b`: `substr`
   * reads as many characters as that '|' is far from the start of the
   * identifier, so the alias is exactly `b` only when `from` is 0.
   */
  lemma AliasBeforeBar(id: string, from: nat, b: string, rest: string)
    requires from <= |id| && id[from..] == b + "|" + rest && '|' !in b
    ensures PartAt(id, from) == Substr(id, from, Some(from + |b|))
    ensures NextBegin(id, from) == Some(from + |b| + 1)
    ensures id[from + |b| + 1..] == rest
  {
    assert id[from..from + |b|] == b;
    assert id[from + |b|] == '|';
    NoBarBefore(id, b, from, from + |b|);
  }

  /** The first alias of an identifier is read correctly, up to the first '|'. */
  lemma FirstAliasSplitCorrectly(a: string, rest: string)
    requires '|' !in a
    ensures Parts(a + "|" + rest, 0) == [a] + Parts(a + "|" + rest, |a| + 1)
    ensures Parts(a, 0) == [a]
  {
    var id := a + "|" + rest;
    AliasBeforeBar(id, 0, a, rest);
    assert id[0..|a|] == a;
    LastAlias(a, 0, a);
  }

  /** With at most one '|', an identifier splits into exactly its two aliases. */
  lemma TwoAliasesSplitCorrectly(a: string, b: string)
    requires '|' !in a && '|' !in b
    ensures Parts(a + "|" + b, 0) == [a, b]
  {
    var id := a + "|" + b;
    FirstAliasSplitCorrectly(a, b);
    AliasBeforeBar(id, 0, a, b);
    LastAlias(id, |a| + 1, b);
  }

  /**
   * An alias that is not the first and is followed by one more: when that
   * last alias is shorter than the position it starts after, `substr` reads
   * over the '|' to the end.
   */
  lemma MiddleAliasOverruns(id: string, p: nat, b: string, c: string)
    requires p <= |id| && id[p..] == b + "|" + c
    requires '|' !in b && '|' !in c && |c| < p
    ensures Parts(id, p) == [b + "|" + c, c]
  {
    var q := p + |b| + 1;
    AliasBeforeBar(id, p, b, c);
    assert |id| == p + |b| + 1 + |c|;
    assert PartAt(id, p) == b + "|" + c by {
      if p + (p + |b|) <= |id| {
        assert p + (p + |b|) == |id|;
        assert id[p..p + (p + |b|)] == id[p..];
      }
    }
    LastAlias(id, q, c);
    assert Parts(id, p) == [PartAt(id, p)] + Parts(id, q);
  }

  /**
   * From the second alias on, `substr` is given the position of the next '|'
   * as a length; when the third alias is no longer than the first, the second
   * alias swallows the '|' and the third alias with it.
   */
  lemma SecondOfThreeAliasesOverruns(a: string, b: string, c: string)
    requires '|' !in a && '|' !in b && '|' !in c
    requires |c| <= |a|
    ensures Parts(a + "|" + b + "|" + c, 0) == [a, b + "|" + c, c]
  {
    var id := a + "|" + b + "|" + c;
    var rest := b + "|" + c;
    assert id == a + "|" + rest;
    assert id[|a| + 1..] == rest;
    FirstAliasSplitCorrectly(a, rest);
    MiddleAliasOverruns(id, |a| + 1, b, c);
  }

  /** "-a|-b|-c" registers "-a", "-b|-c" and "-c"; "-b" is never registered. */
  lemma ThreeAliasParts()
    ensures Parts("-a|-b|-c", 0) == ["-a", "-b|-c", "-c"]
  {
    assert "-a|-b|-c" == "-a" + "|" + "-b" + "|" + "-c";
    assert "-b" + "|" + "-c" == "-b|-c";
    SecondOfThreeAliasesOverruns("-a", "-b", "-c");
  }

  lemma ThreeAliasRegistration()
    ensures RegisterIdentifier(map[], [], 0, "-a|-b|-c").outcome == Pass
    ensures RegisterIdentifier(map[], [], 0, "-a|-b|-c").flags == map["-a" := 0, "-b|-c" := 0, "-c" := 0]
  {
    ThreeAliasParts();
    assert AliasError("-b|-c").None? by { assert "-b|-c"[1] == 'b'; }
    ThreeAliasesRegistered("-a|-b|-c", "-a", "-b|-c", "-c");
  }

  /** Three distinct acceptable parts on an empty parser are all registered. */
  lemma ThreeAliasesRegistered(id: string, a: string, b: string, c: string)
    requires CharAt(id, 0) == '-' && Parts(id, 0) == [a, b, c]
    requires AliasError(a).None? && AliasError(b).None? && AliasError(c).None?
    requires a != b && a != c && b != c
    ensures RegisterIdentifier(map[], [], 0, id) == Registration(Pass, map[a := 0, b := 0, c := 0], [])
  {
    FlagRegistration(map[], [], 0, id);
    ThreeAcceptable(a, b, c);
    ThreeMapped(a, b, c);
  }

  lemma ThreeAcceptable(a: string, b: string, c: string)
    requires AliasError(a).None? && AliasError(b).None? && AliasError(c).None?
    requires a != b && a != c && b != c
    ensures AcceptableAliases(map[], [a, b, c])
  {
  }

  lemma ThreeMapped(a: string, b: string, c: string)
    ensures WithAliases(map[], [a, b, c], 0) == map[a := 0, b := 0, c := 0]
  {
    assert forall x :: x in [a, b, c] <==> x == a || x == b || x == c;
  }

  /**
   * A reserved "-h" written as the middle of three aliases is accepted when
   * the last alias is no longer than the first: the middle part is read as
   * "-h|" followed by the last alias, which is neither reserved name. So
   * "--foo|-h|-b" registers "--foo", "-h|-b" and "-b".
   */
  lemma ReservedAliasEscapes(a: string, c: string)
    requires '|' !in a && '|' !in c && |c| <= |a| && CharAt(a, 0) == '-'
    requires AliasError(a).None? && AliasError(c).None? && a != c
    ensures RegisterIdentifier(map[], [], 0, a + "|-h|" + c)
      == Registration(Pass, map[a := 0, "-h|" + c := 0, c := 0], [])
  {
    var id := a + "|-h|" + c;
    var mid := "-h|" + c;
    assert id == a + "|" + "-h" + "|" + c;
    assert "-h" + "|" + c == mid;
    SecondOfThreeAliasesOverruns(a, "-h", c);
    assert CharAt(id, 0) == '-' by { assert id[0] == a[0]; }
    assert AliasError(mid).None? by { assert mid[1] == 'h' && |mid| >= 3; }
    assert a != mid by { assert '|' in mid; }
    assert c != mid by { assert '|' in mid; }
    ThreeAliasesRegistered(id, a, mid, c);
  }

  /**
   * A refused identifier keeps the aliases read before the refusal, mapped
   * to the index the next element will get: after "-a|-h" is refused on an
   * empty parser, "-a" names the positional "x" that is added next.
   */
  lemma LeftoverAliasBindsNext()
    ensures RegisterIdentifier(map[], [], 0, "-a|-h") == Registration(Fail(ReservedFlag("-h")), map["-a" := 0], [])
    ensures RegisterIdentifier(map["-a" := 0], [], 0, "x") == Registration(Pass, map["-a" := 0], [0])
  {
    TwoAliasesSplitCorrectly("-a", "-h");
    assert "-a" + "|" + "-h" == "-a|-h";
    FlagRegistration(map[], [], 0, "-a|-h");
    assert AliasError("-a").None? && AliasError("-h").Some?;
    assert Accepted(map[], ["-a", "-h"], 0) == 1;
    assert ["-a", "-h"][..1] == ["-a"];
    assert forall x :: x in ["-a"] <==> x == "-a";
    assert WithAliases(map[], ["-a"], 0) == map["-a" := 0];
    assert IsLabel("x");
  }

  /**
   * The short-alias check refuses an alias only when its size is not 2 and
   * its second character is not a letter: "-ab" and "-1" pass, "-1b" and
   * "-" do not, and an alias need not start with '-' after the first.
   */
  lemma ShortAliasQuirks()
    ensures AliasError("-ab").None?
    ensures AliasError("-1").None?
    ensures AliasError("-1b") == Some(InvalidFlag("-1b"))
    ensures AliasError("-") == Some(InvalidFlag("-"))
    ensures AliasError("bc").None?
    ensures AliasError("") == Some(InvalidFlag(""))
    ensures AliasError("--") == Some(InvalidFlag("--"))
    ensures AliasError("--x") == None
    ensures AliasError("-h") == Some(ReservedFlag("-h"))
  {
    assert "--"[2..] == "";
    assert "--x"[2..] == "x";
  }

  // ---------------------------------------------------------------------
  // Parsing
  // ---------------------------------------------------------------------

  /** The destinations the elements write to. */
  function Outputs(elements: seq<Element>): set<Cell>
  {
    set i | 0 <= i < |elements| :: elements[i].output
  }

  /** Every entry of `a` that is set is set in `b`. */
  predicate KeepsSet(a: seq<bool>, b: seq<bool>)
  {
    |a| == |b| && forall i :: 0 <= i < |a| ==> a[i] ==> b[i]
  }

  /** One turn of the loop writes only element destinations and never clears a has-value entry. */
  lemma StepFrame(s: Schema, words: seq<string>, c: Cursor, stod: Stod)
    requires InScan(s, words, c) && c.wordI < |words|
    ensures var r := ScanStep(s, words, c, stod);
      && (r.Abort? ==> r.cells == c.cells)
      && (r.Next? ==> SameOutside(c.cells, r.cursor.cells, Outputs(s.elements)))
      && (r.Next? ==> KeepsSet(c.hasValue, r.cursor.hasValue))
  {
    var word := words[c.wordI];
    var isFlag := IsDash(word);
    if !(!isFlag && c.argI == |s.args|) && !(isFlag && word !in s.flags) {
      var ei := if isFlag then s.flags[word] else s.args[c.argI];
      assert s.elements[ei].output in Outputs(s.elements);
    }
  }

  lemma {:induction false} ScanFrame(s: Schema, words: seq<string>, c: Cursor, stod: Stod)
    requires InScan(s, words, c)
    decreases |words| - c.wordI
    ensures var r := Scan(s, words, c, stod);
      && SameOutside(c.cells, r.cells, Outputs(s.elements))
      && (r.Scanned? ==> KeepsSet(c.hasValue, r.hasValue))
  {
    if c.wordI < |words| {
      StepFrame(s, words, c, stod);
      match ScanStep(s, words, c, stod)
      case Abort(_, _) =>
      case Next(c') => ScanFrame(s, words, c', stod);
    }
  }

  /** `parse` writes only to the destinations of declared elements. */
  lemma ParseFrame(s: Schema, words: seq<string>, cells: map<Cell, Value>, stod: Stod)
    requires Indexed(s)
    ensures SameOutside(cells, ParseRun(s, words, cells, stod).cells, Outputs(s.elements))
  {
    ScanFrame(s, words, Cursor(0, 0, HasDefaults(s.elements), cells), stod);
  }

  /**
   * `parse` reports a missing value only for an element without a default,
   * and never when every element has one; it succeeds exactly when the scan
   * completes and leaves no element without a value.
   */
  lemma MissingOnlyWithoutDefault(s: Schema, words: seq<string>, cells: map<Cell, Value>, stod: Stod)
    requires Indexed(s)
    ensures var run := ParseRun(s, words, cells, stod);
      run.outcome.Fail? && run.outcome.error.MissingValue? ==>
        exists i :: 0 <= i < |s.elements| && !s.elements[i].hasDefault && s.elements[i].identifier == run.outcome.error.identifier
    ensures (forall i :: 0 <= i < |s.elements| ==> s.elements[i].hasDefault) ==>
      !ParseRun(s, words, cells, stod).outcome.Fail? || !ParseRun(s, words, cells, stod).outcome.error.MissingValue?
  {
    var c := Cursor(0, 0, HasDefaults(s.elements), cells);
    ScanFrame(s, words, c, stod);
    match Scan(s, words, c, stod)
    case Aborted(_, _) =>
    case Scanned(hv, _) =>
      match FirstUnset(hv, 0)
      case None =>
      case Some(i) =>
        assert !hv[i] && !c.hasValue[i];
  }

  /** Positional slots that are plain strings with no choices, with distinct destinations. */
  predicate PlainStringArgs(s: Schema)
    requires Indexed(s)
  {
    && (forall k :: 0 <= k < |s.args| ==> s.elements[s.args[k]].shape.StringField? && s.elements[s.args[k]].choices == [])
    && (forall k, l :: 0 <= k < l < |s.args| ==> s.elements[s.args[k]].output != s.elements[s.args[l]].output)
  }

  /** The destination of positional slot `k`. */
  function ArgOutput(s: Schema, k: nat): Cell
    requires Indexed(s) && k < |s.args|
  {
    s.elements[s.args[k]].output
  }

  lemma {:induction false} ScanPositionals(s: Schema, words: seq<string>, c: Cursor, stod: Stod)
    requires InScan(s, words, c) && PlainStringArgs(s)
    requires c.wordI == c.argI
    requires forall k :: 0 <= k < |words| ==> !IsDash(words[k])
    requires forall k :: 0 <= k < c.wordI ==> ArgOutput(s, k) in c.cells && c.cells[ArgOutput(s, k)] == VString(words[k])
    decreases |words| - c.wordI
    ensures var r := Scan(s, words, c, stod);
      && (|words| <= |s.args| ==> r.Scanned? && forall k :: 0 <= k < |words| ==> ArgOutput(s, k) in r.cells && r.cells[ArgOutput(s, k)] == VString(words[k]))
      && (|words| > |s.args| ==> r.Aborted? && r.error == ExtraPositional(words[|s.args|]))
  {
    if c.wordI < |words| && c.argI < |s.args| {
      var i := c.wordI;
      var e := s.elements[s.args[i]];
      assert !IsDash(words[i]);
      assert e.shape.StringField? && e.choices == [];
      var c' := Cursor(i + 1, i + 1, c.hasValue[s.args[i] := true], c.cells[e.output := VString(words[i])]);
      assert ScanStep(s, words, c, stod) == Next(c');
      forall k | 0 <= k < i + 1
        ensures ArgOutput(s, k) in c'.cells && c'.cells[ArgOutput(s, k)] == VString(words[k])
      {
        if k < i { assert ArgOutput(s, k) != ArgOutput(s, i); }
      }
      ScanPositionals(s, words, c', stod);
    }
  }

  /**
   * With plain string positionals and no dashed words, `parse` stores the
   * k-th word in the k-th positional, in declaration order; one word more
   * than there are positionals is an extra positional.
   */
  lemma PositionalsInOrder(s: Schema, words: seq<string>, cells: map<Cell, Value>, stod: Stod)
    requires Indexed(s) && PlainStringArgs(s)
    requires forall k :: 0 <= k < |words| ==> !IsDash(words[k])
    ensures var run := ParseRun(s, words, cells, stod);
      && (|words| <= |s.args| ==> forall k :: 0 <= k < |words| ==> ArgOutput(s, k) in run.cells && run.cells[ArgOutput(s, k)] == VString(words[k]))
      && (|words| > |s.args| ==> run.outcome == Fail(ExtraPositional(words[|s.args|])))
  {
    ScanPositionals(s, words, Cursor(0, 0, HasDefaults(s.elements), cells), stod);
  }

  /**
   * The positions of the words the scan from `c` binds to positional slots,
   * in order: the words without a leading '-' at which a turn starts and
   * goes on. A flag's value word is consumed inside the flag's turn, so it
   * is never one of them.
   */
  function ArgWords(s: Schema, words: seq<string>, c: Cursor, stod: Stod): seq<nat>
    requires InScan(s, words, c)
    decreases |words| - c.wordI
  {
    if c.wordI == |words| then []
    else
      match ScanStep(s, words, c, stod)
      case Abort(_, _) => []
      case Next(c') => (if IsDash(words[c.wordI]) then [] else [c.wordI]) + ArgWords(s, words, c', stod)
  }

  /**
   * Only positional slots write their destinations: the slots name distinct
   * elements, no flag names a slot's element, and no other element shares a
   * slot's destination.
   */
  predicate SeparateSlots(s: Schema)
    requires Indexed(s)
  {
    && (forall k, l :: 0 <= k < l < |s.args| ==> s.args[k] != s.args[l])
    && (forall f, k :: f in s.flags && 0 <= k < |s.args| ==> s.flags[f] != s.args[k])
    && (forall i, k :: 0 <= i < |s.elements| && 0 <= k < |s.args| && i != s.args[k] ==>
          s.elements[i].output != ArgOutput(s, k))
  }

  /** The destinations a scan that is at slot `argI` may still write: those of flags, and of slots from `argI` on. */
  ghost function Writable(s: Schema, argI: nat): set<Cell>
  {
    (set f | f in s.flags && s.flags[f] < |s.elements| :: s.elements[s.flags[f]].output)
    + (set k | argI <= k < |s.args| && s.args[k] < |s.elements| :: s.elements[s.args[k]].output)
  }

  /**
   * A flag's turn keeps the slot cursor and writes only the flag's element;
   * a positional turn binds slot `argI`, marks it as having a value, and
   * moves to the next slot.
   */
  lemma StepSlots(s: Schema, words: seq<string>, c: Cursor, stod: Stod)
    requires InScan(s, words, c) && c.wordI < |words|
    ensures var word := words[c.wordI]; var r := ScanStep(s, words, c, stod);
      && (r.Next? && IsDash(word) ==>
            && word in s.flags && r.cursor.argI == c.argI
            && OnlyAt(c.cells, r.cursor.cells, s.elements[s.flags[word]].output))
      && (r.Next? && !IsDash(word) ==>
            && c.argI < |s.args| && r.cursor.argI == c.argI + 1 && r.cursor.hasValue[s.args[c.argI]]
            && OnlyAt(c.cells, r.cursor.cells, ArgOutput(s, c.argI)))
      && (r.Next? && !IsDash(word) && c.argI < |s.args| && s.elements[s.args[c.argI]].shape.StringField? ==>
            r.cursor.cells == c.cells[ArgOutput(s, c.argI) := VString(word)])
  {
  }

  lemma {:induction false} ScanSlotFrame(s: Schema, words: seq<string>, c: Cursor, stod: Stod)
    requires InScan(s, words, c)
    decreases |words| - c.wordI
    ensures SameOutside(c.cells, Scan(s, words, c, stod).cells, Writable(s, c.argI))
  {
    if c.wordI < |words| {
      StepSlots(s, words, c, stod);
      var word := words[c.wordI];
      match ScanStep(s, words, c, stod)
      case Abort(_, _) =>
      case Next(c') =>
        ScanSlotFrame(s, words, c', stod);
        var out := if IsDash(word) then s.elements[s.flags[word]].output else ArgOutput(s, c.argI);
        assert out in Writable(s, c.argI);
        assert Writable(s, c'.argI) <= Writable(s, c.argI);
    }
  }

  /**
   * From any cursor, the words the scan binds to slots come in word order,
   * none starts with '-', and there are no more of them than free slots.
   */
  lemma {:induction false} ArgWordsShape(s: Schema, words: seq<string>, c: Cursor, stod: Stod)
    requires InScan(s, words, c)
    decreases |words| - c.wordI
    ensures var p := ArgWords(s, words, c, stod);
      && c.argI + |p| <= |s.args|
      && (forall k :: 0 <= k < |p| ==> c.wordI <= p[k] < |words| && !IsDash(words[p[k]]))
      && (forall k, l :: 0 <= k < l < |p| ==> p[k] < p[l])
  {
    if c.wordI < |words| {
      StepSlots(s, words, c, stod);
      match ScanStep(s, words, c, stod)
      case Abort(_, _) =>
      case Next(c') =>
        ArgWordsShape(s, words, c', stod);
    }
  }

  /** Slot `argI + k` holds the k-th bound word, for every bound word whose slot is a string. */
  predicate SlotsHold(s: Schema, words: seq<string>, cells: map<Cell, Value>, argI: nat, p: seq<nat>)
    requires Indexed(s)
  {
    forall k :: 0 <= k < |p| && argI + k < |s.args| && p[k] < |words| && s.elements[s.args[argI + k]].shape.StringField? ==>
      Holds(cells, ArgOutput(s, argI + k), VString(words[p[k]]))
  }

  lemma SlotsHoldCons(s: Schema, words: seq<string>, cells: map<Cell, Value>, argI: nat, w: nat, p: seq<nat>)
    requires Indexed(s) && argI < |s.args| && w < |words|
    requires s.elements[s.args[argI]].shape.StringField? ==> Holds(cells, ArgOutput(s, argI), VString(words[w]))
    requires SlotsHold(s, words, cells, argI + 1, p)
    ensures SlotsHold(s, words, cells, argI, [w] + p)
  {
    var q := [w] + p;
    forall k | 0 <= k < |q| && argI + k < |s.args| && q[k] < |words| && s.elements[s.args[argI + k]].shape.StringField?
      ensures Holds(cells, ArgOutput(s, argI + k), VString(words[q[k]]))
    {
      if k > 0 {
        assert q[k] == p[k - 1] && argI + k == (argI + 1) + (k - 1);
      }
    }
  }

  /** The scan from a cursor past slot `a` never writes slot `a` again. */
  lemma SlotKept(s: Schema, words: seq<string>, c: Cursor, stod: Stod, a: nat)
    requires InScan(s, words, c) && SeparateSlots(s) && a < c.argI
    ensures Untouched(c.cells, Scan(s, words, c, stod).cells, ArgOutput(s, a))
  {
    ScanSlotFrame(s, words, c, stod);
    assert ArgOutput(s, a) !in Writable(s, c.argI);
  }

  /**
   * From any cursor, the k-th word the scan binds to a slot is the value of
   * slot `argI + k` when that slot is a string: interleaved flags and their
   * value words never shift a positional.
   */
  lemma {:induction false} ScanBindsInOrder(s: Schema, words: seq<string>, c: Cursor, stod: Stod)
    requires InScan(s, words, c) && SeparateSlots(s)
    decreases |words| - c.wordI
    ensures SlotsHold(s, words, Scan(s, words, c, stod).cells, c.argI, ArgWords(s, words, c, stod))
  {
    if c.wordI < |words| {
      StepSlots(s, words, c, stod);
      var word := words[c.wordI];
      var step := ScanStep(s, words, c, stod);
      if step.Next? {
        var c' := step.cursor;
        ScanBindsInOrder(s, words, c', stod);
        var p' := ArgWords(s, words, c', stod);
        var r := Scan(s, words, c', stod);
        assert Scan(s, words, c, stod) == r;
        if !IsDash(word) {
          assert ArgWords(s, words, c, stod) == [c.wordI] + p';
          SlotKept(s, words, c', stod, c.argI);
          SlotsHoldCons(s, words, r.cells, c.argI, c.wordI, p');
        } else {
          assert ArgWords(s, words, c, stod) == p';
        }
      }
    }
  }

  /**
   * `parse` binds positionals in declaration order whatever flags are
   * interleaved: the k-th word it binds to a slot, counting only words it
   * does not consume as a flag's value, is the value of `args[k]`.
   */
  lemma PositionalsBoundInOrder(s: Schema, words: seq<string>, cells: map<Cell, Value>, stod: Stod)
    requires Indexed(s) && SeparateSlots(s)
    ensures var c := Cursor(0, 0, HasDefaults(s.elements), cells);
      var p := ArgWords(s, words, c, stod); var run := ParseRun(s, words, cells, stod);
      && |p| <= |s.args|
      && (forall k :: 0 <= k < |p| ==> p[k] < |words| && !IsDash(words[p[k]]))
      && (forall k, l :: 0 <= k < l < |p| ==> p[k] < p[l])
      && (forall k :: 0 <= k < |p| && s.elements[s.args[k]].shape.StringField? ==>
            Holds(run.cells, ArgOutput(s, k), VString(words[p[k]])))
  {
    var c := Cursor(0, 0, HasDefaults(s.elements), cells);
    ArgWordsShape(s, words, c, stod);
    ScanBindsInOrder(s, words, c, stod);
  }

  /**
   * Positionals `a`, `b` and a string flag `--x`: the words "1", "--x", "v",
   * "2" bind a to "1", b to "2" and x to "v".
   */
  lemma InterleavedFlagExample(stod: Stod)
    ensures var s := Schema([Element("a", 0, StringField, [], false, false),
                             Element("b", 1, StringField, [], false, false),
                             Element("--x", 2, StringField, [], false, false)],
                            map["--x" := 2], [0, 1]);
      ParseRun(s, ["1", "--x", "v", "2"], map[], stod)
        == Run(Pass, map[0 := VString("1"), 2 := VString("v"), 1 := VString("2")])
  {
    var s := Schema([Element("a", 0, StringField, [], false, false),
                     Element("b", 1, StringField, [], false, false),
                     Element("--x", 2, StringField, [], false, false)],
                    map["--x" := 2], [0, 1]);
    var words := ["1", "--x", "v", "2"];
    assert !IsDash("1") && IsDash("--x") && !IsDash("2");
    var c0 := Cursor(0, 0, HasDefaults(s.elements), map[]);
    assert c0.hasValue == [false, false, false];
    var c1 := Cursor(1, 1, [true, false, false], map[0 := VString("1")]);
    assert ScanStep(s, words, c0, stod) == Next(c1);
    var c2 := Cursor(3, 1, [true, false, true], map[0 := VString("1"), 2 := VString("v")]);
    assert ScanStep(s, words, c1, stod) == Next(c2);
    var c3 := Cursor(4, 2, [true, true, true], map[0 := VString("1"), 2 := VString("v"), 1 := VString("2")]);
    assert ScanStep(s, words, c2, stod) == Next(c3);
    assert Scan(s, words, c0, stod) == Scanned(c3.hasValue, c3.cells);
    assert FirstUnset(c3.hasValue, 0) == None;
  }

  /**
   * Element `i` is never named by the words: it is no positional slot, and
   * no word is one of its aliases.
   */
  predicate Unnamed(s: Schema, words: seq<string>, i: nat)
  {
    && (forall k :: 0 <= k < |s.args| ==> s.args[k] != i)
    && (forall k :: 0 <= k < |words| && words[k] in s.flags ==> s.flags[words[k]] != i)
  }

  /** No other element writes element `i`'s destination. */
  predicate OwnOutput(s: Schema, i: nat)
    requires i < |s.elements|
  {
    forall j :: 0 <= j < |s.elements| && j != i ==> s.elements[j].output != s.elements[i].output
  }

  lemma {:induction false} ScanKeepsUnnamed(s: Schema, words: seq<string>, c: Cursor, stod: Stod, i: nat)
    requires InScan(s, words, c) && i < |s.elements| && Unnamed(s, words, i) && OwnOutput(s, i)
    decreases |words| - c.wordI
    ensures Untouched(c.cells, Scan(s, words, c, stod).cells, s.elements[i].output)
  {
    if c.wordI < |words| {
      StepSlots(s, words, c, stod);
      match ScanStep(s, words, c, stod)
      case Abort(_, _) =>
      case Next(c') =>
        ScanKeepsUnnamed(s, words, c', stod, i);
    }
  }

  /**
   * An element no word names keeps, through `parse`, what its destination
   * held before: the default `add` wrote there stays.
   */
  lemma DefaultKept(s: Schema, words: seq<string>, cells: map<Cell, Value>, stod: Stod, i: nat)
    requires Indexed(s) && i < |s.elements| && Unnamed(s, words, i) && OwnOutput(s, i)
    ensures Untouched(cells, ParseRun(s, words, cells, stod).cells, s.elements[i].output)
  {
    ScanKeepsUnnamed(s, words, Cursor(0, 0, HasDefaults(s.elements), cells), stod, i);
  }

  /**
   * What one word does, by its kind: a non-dash word past the last
   * positional, an unknown flag, a bool flag (set to true, no value word
   * consumed), a value flag at the end of the words, and a value flag that
   * is not a list, which consumes exactly the next word, whatever it is, and
   * stores its coercion.
   */
  lemma WordClassification(s: Schema, words: seq<string>, c: Cursor, stod: Stod)
    requires InScan(s, words, c) && c.wordI < |words|
    ensures var word := words[c.wordI];
      var r := ScanStep(s, words, c, stod);
      && (!IsDash(word) && c.argI == |s.args| ==> r == Abort(ExtraPositional(word), c.cells))
      && (IsDash(word) && word !in s.flags ==> r == Abort(UnknownFlag(word), c.cells))
      && (IsDash(word) && word in s.flags && s.elements[s.flags[word]].shape.BoolField? ==>
            var e := s.elements[s.flags[word]];
            r == Next(Cursor(c.wordI + 1, c.argI, c.hasValue[s.flags[word] := true], c.cells[e.output := VBool(true)])))
      && (IsDash(word) && word in s.flags && !s.elements[s.flags[word]].shape.BoolField? && c.wordI + 1 == |words| ==>
            r == Abort(MissingFlagValue(word), c.cells))
      && (IsDash(word) && word in s.flags && c.wordI + 1 < |words| &&
          !s.elements[s.flags[word]].shape.BoolField? && !s.elements[s.flags[word]].shape.StringListField? ==>
            var ei := s.flags[word]; var e := s.elements[ei];
            r == match Coerce(e, words[c.wordI + 1], stod)
                 case Rejected(err) => Abort(err, c.cells)
                 case Coerced(v) => Next(Cursor(c.wordI + 2, c.argI, c.hasValue[ei := true], c.cells[e.output := v])))
  {
  }

  /**
   * A positional string list takes the rest of the words, dashed or not; a
   * flag's string list takes the next word whatever it is, then the words up
   * to the next dashed one.
   */
  lemma ListValues(s: Schema, words: seq<string>, c: Cursor, stod: Stod)
    requires InScan(s, words, c) && c.wordI < |words|
    ensures var word := words[c.wordI];
      var r := ScanStep(s, words, c, stod);
      && (!IsDash(word) && c.argI < |s.args| && s.elements[s.args[c.argI]].shape.StringListField? ==>
            var ei := s.args[c.argI];
            r == Next(Cursor(|words|, c.argI + 1, c.hasValue[ei := true],
                             c.cells[s.elements[ei].output := VStringList(words[c.wordI..])])))
      && (IsDash(word) && word in s.flags && s.elements[s.flags[word]].shape.StringListField? && c.wordI + 1 < |words| ==>
            var ei := s.flags[word];
            && r.Next?
            && c.wordI + 2 <= r.cursor.wordI
            && r.cursor.cells == c.cells[s.elements[ei].output := VStringList(words[c.wordI + 1..r.cursor.wordI])]
            && (forall k :: c.wordI + 2 <= k < r.cursor.wordI ==> !IsDash(words[k]))
            && (r.cursor.wordI < |words| ==> IsDash(words[r.cursor.wordI])))
  {
    var word := words[c.wordI];
    if !IsDash(word) {
      assert ListEnd(words, c.wordI + 1, false) == |words|;
      assert [word] + words[c.wordI + 1..|words|] == words[c.wordI..];
    } else if word in s.flags && c.wordI + 1 < |words| {
      var end := ListEnd(words, c.wordI + 2, true);
      assert [words[c.wordI + 1]] + words[c.wordI + 2..end] == words[c.wordI + 1..end];
    }
  }

  /**
   * How a value word is stored: a string when it is one of the choices (or
   * there are none), an int when `stoi` converts it, a bool only for exactly
   * "true" or "false".
   */
  lemma CoercionRules(e: Element, word: string, stod: Stod)
    requires !e.shape.StringListField?
    ensures IsStringField(e.shape) ==>
      (Coerce(e, word, stod).Coerced? <==> e.choices == [] || word in e.choices)
    ensures e.shape.StringField? && Coerce(e, word, stod).Coerced? ==> Coerce(e, word, stod).value == VString(word)
    ensures e.shape.OptStringField? && Coerce(e, word, stod).Coerced? ==> Coerce(e, word, stod).value == VOptString(Some(word))
    ensures IsStringField(e.shape) && Coerce(e, word, stod).Rejected? ==> Coerce(e, word, stod).error == InvalidChoice(word)
    ensures IsIntField(e.shape) ==> (Coerce(e, word, stod).Coerced? <==> Stoi(word).Converted?)
    ensures e.shape.IntField? && Stoi(word).Converted? ==> Coerce(e, word, stod) == Coerced(VInt(Stoi(word).value))
    ensures e.shape.BoolField? ==> (Coerce(e, word, stod).Coerced? <==> word == "true" || word == "false")
    ensures e.shape.BoolField? && Coerce(e, word, stod).Coerced? ==> Coerce(e, word, stod).value == VBool(word == "true")
  {
  }
}
