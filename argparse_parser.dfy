/**
 * Engine A's `argparse::Parser` (include/argparse.hpp, src/argparse.cpp): the
 * registry that the three `add` overloads fill and that the `const` `parse`
 * reads. Each method is proved against the functions of module ArgParse.
 */
module ArgParseParser {
  import opened Common
  import opened CText
  import opened ArgParse
  import ArgParseProps

  class Parser {
    var elements: seq<Element>
    var flags: map<string, nat>
    var args: seq<nat>

    /** The part of the parser that `parse` reads. */
    function Snapshot(): Schema
      reads this
    {
      Schema(elements, flags, args)
    }

    constructor ()
      ensures elements == [] && flags == map[] && args == []
    {
      elements, flags, args := [], map[], [];
    }

    /** `validate_label`: the all-characters check of a label. */
    method ValidateLabel(text: string) returns (ok: bool)
      ensures ok == IsLabel(text)
    {
      if |text| == 0 { return false; }
      if !IsAlpha(text[0]) { return false; }
      var k := 0;
      while k < |text|
        invariant 0 <= k <= |text|
        invariant forall j :: 0 <= j < k ==> IsAlnum(text[j]) || text[j] == '-' || text[j] == '_'
      {
        var c := text[k];
        if !IsAlnum(c) && c != '-' && c != '_' {
          return false;
        }
        k := k + 1;
      }
      return true;
    }

    /**
     * `add_identifier`: a positional label goes into `args`; a dashed
     * identifier is split on '|' and each alias is checked and mapped to the
     * index the next element will have.
     */
    method AddIdentifier(identifier: string) returns (r: Outcome<UsageError>)
      modifies this
      ensures Registration(r, flags, args) == RegisterIdentifier(old(flags), old(args), |elements|, identifier)
      ensures elements == old(elements)
    {
      if CharAt(identifier, 0) != '-' {
        var valid := ValidateLabel(identifier);
        if !valid {
          return Fail(InvalidIdentifier(identifier));
        }
        args := args + [|elements|];
        return Pass;
      }
      ghost var target := RegisterAliases(identifier, 0, flags, |elements|);
      var partBegin: Option<nat> := Some(0);
      while partBegin.Some?
        invariant partBegin.Some? ==> partBegin.value <= |identifier|
        invariant partBegin.Some? ==> RegisterAliases(identifier, partBegin.value, flags, |elements|) == target
        invariant partBegin.None? ==> target == (Pass, flags)
        invariant args == old(args) && elements == old(elements)
        decreases if partBegin.Some? then |identifier| + 1 - partBegin.value else 0
      {
        var begin := partBegin.value;
        var partEnd := FindChar(identifier, '|', begin);
        var part := Substr(identifier, begin, partEnd);
        partBegin := if partEnd.None? then None else Some(partEnd.value + 1);

        if part == "-h" || part == "--help" {
          return Fail(ReservedFlag(part));
        }
        if |part| >= 2 && part[1] == '-' {
          var valid := ValidateLabel(part[2..]);
          if !valid {
            return Fail(InvalidFlag(part));
          }
        } else {
          if |part| != 2 && !IsAlpha(CharAt(part, 1)) {
            return Fail(InvalidFlag(part));
          }
        }

        if part in flags {
          return Fail(DuplicateFlag(part));
        }
        flags := flags[part := |elements|];
      }
      return Pass;
    }

    /**
     * `add(output, identifier)`: `has_default` and `is_optional` are
     * `is_opt_field<T>`; a `bool` destination is set to false at once, even
     * when the identifier is then refused.
     */
    method Add(mem: Memory, output: Cell, shape: Shape, identifier: string) returns (r: Outcome<UsageError>)
      modifies this, mem
      ensures mem.cells == if shape.BoolField? then old(mem.cells)[output := VBool(false)] else old(mem.cells)
      ensures Registration(r, flags, args) == RegisterIdentifier(old(flags), old(args), |old(elements)|, identifier)
      ensures elements == old(elements) +
        (if r.Pass? then [Element(identifier, output, shape, [], IsOptField(shape), IsOptField(shape))] else [])
      ensures old(IndexedWithin(Snapshot())) ==> IndexedWithin(Snapshot())
      ensures old(IndexedWithin(Snapshot())) && r.Pass? ==> Indexed(Snapshot())
    {
      var element := Element(identifier, output, shape, [], false, false);
      element := element.(isOptional := IsOptField(shape), hasDefault := IsOptField(shape));
      if shape.BoolField? {
        mem.cells := mem.cells[output := VBool(false)];
      }
      r := AddIdentifier(identifier);
      ArgParseProps.RegisteredIndices(old(flags), old(args), |elements|, identifier);
      if r.Fail? { return; }
      elements := elements + [element];
    }

    /**
     * `add(output, identifier, default_value)`, allowed only for `int`,
     * `double` and `string` destinations: the default is written at once and
     * `has_default` is set. The default arrives already converted to the
     * destination's type.
     */
    method AddWithDefault(mem: Memory, output: Cell, shape: Shape, identifier: string, default: Value)
      returns (r: Outcome<UsageError>)
      requires !IsOptField(shape)
      requires match shape
        case IntField => default.VInt?
        case DoubleField => default.VDouble?
        case StringField => default.VString?
        case _ => false
      modifies this, mem
      ensures mem.cells == old(mem.cells)[output := default]
      ensures Registration(r, flags, args) == RegisterIdentifier(old(flags), old(args), |old(elements)|, identifier)
      ensures elements == old(elements) +
        (if r.Pass? then [Element(identifier, output, shape, [], true, false)] else [])
      ensures old(IndexedWithin(Snapshot())) ==> IndexedWithin(Snapshot())
      ensures old(IndexedWithin(Snapshot())) && r.Pass? ==> Indexed(Snapshot())
    {
      var element := Element(identifier, output, shape, [], false, false);
      element := element.(hasDefault := true);
      mem.cells := mem.cells[output := default];
      r := AddIdentifier(identifier);
      ArgParseProps.RegisteredIndices(old(flags), old(args), |elements|, identifier);
      if r.Fail? { return; }
      elements := elements + [element];
    }

    /**
     * `add(output, identifier, default_value, choices)`, allowed only for
     * `string`, `optional<string>` and `vector<string>` destinations (a
     * present default compiles only for the first two). `None` is `nullopt`.
     * A present default must be one of the choices; otherwise nothing changes.
     */
    method AddWithChoices(
      mem: Memory, output: Cell, shape: Shape, identifier: string,
      default: Option<string>, choices: seq<string>)
      returns (r: Outcome<UsageError>)
      requires shape.StringField? || shape.OptStringField? || shape.StringListField?
      requires shape.StringListField? ==> default.None?
      modifies this, mem
      ensures default.Some? && default.value !in choices ==>
        r == Fail(InvalidDefault(default.value)) && mem.cells == old(mem.cells) &&
        elements == old(elements) && flags == old(flags) && args == old(args)
      ensures !(default.Some? && default.value !in choices) ==>
        && mem.cells == (match default
                         case None => old(mem.cells)
                         case Some(d) => old(mem.cells)[output := if shape.StringField? then VString(d) else VOptString(Some(d))])
        && Registration(r, flags, args) == RegisterIdentifier(old(flags), old(args), |old(elements)|, identifier)
        && elements == old(elements) +
          (if r.Pass? then [Element(identifier, output, shape, choices,
                                    if default.Some? then true else IsOptField(shape), IsOptField(shape))]
           else [])
      ensures old(IndexedWithin(Snapshot())) ==> IndexedWithin(Snapshot())
      ensures old(IndexedWithin(Snapshot())) && r.Pass? ==> Indexed(Snapshot())
    {
      var element := Element(identifier, output, shape, [], false, false);
      element := element.(choices := choices);
      if default.Some? {
        var d := default.value;
        if Find(choices, d) == |choices| {
          return Fail(InvalidDefault(d));
        }
        mem.cells := mem.cells[output := if shape.StringField? then VString(d) else VOptString(Some(d))];
        element := element.(hasDefault := true);
      }
      if default.None? {
        element := element.(hasDefault := IsOptField(shape));
      }
      element := element.(isOptional := IsOptField(shape));
      r := AddIdentifier(identifier);
      ArgParseProps.RegisteredIndices(old(flags), old(args), |elements|, identifier);
      if r.Fail? { return; }
      elements := elements + [element];
    }

    /**
     * `parse(words)`: one forward pass over the words, then the report of
     * the first element still without a value. It changes only the
     * destinations, never the parser.
     */
    method Parse(words: seq<string>, mem: Memory, stod: Stod) returns (r: Outcome<ParseError>)
      requires Indexed(Snapshot())
      modifies mem
      ensures Run(r, mem.cells) == ParseRun(Snapshot(), words, old(mem.cells), stod)
    {
      var wordI: nat := 0;
      var argI: nat := 0;

      var hasValue: seq<bool> := [];
      for i := 0 to |elements|
        invariant hasValue == HasDefaults(elements)[..i]
      {
        hasValue := hasValue + [elements[i].hasDefault];
      }
      assert hasValue == HasDefaults(elements);

      ghost var s := Snapshot();
      ghost var target := Scan(s, words, Cursor(0, 0, hasValue, mem.cells), stod);
      while wordI < |words|
        invariant InScan(s, words, Cursor(wordI, argI, hasValue, mem.cells))
        invariant Scan(s, words, Cursor(wordI, argI, hasValue, mem.cells), stod) == target
        decreases |words| - wordI
      {
        var failure;
        failure, wordI, argI, hasValue := ParseWord(words, wordI, argI, hasValue, mem, stod);
        if failure.Some? {
          return Fail(failure.value);
        }
      }

      for i := 0 to |elements|
        invariant FirstUnset(hasValue, i) == FirstUnset(hasValue, 0)
      {
        if !hasValue[i] {
          return Fail(MissingValue(elements[i].identifier));
        }
      }
      return Pass;
    }

    /** One turn of the loop of `parse`: the word at `wordI` and the words it consumes. */
    method ParseWord(words: seq<string>, wordI0: nat, argI0: nat, hasValue0: seq<bool>, mem: Memory, stod: Stod)
      returns (failure: Option<ParseError>, wordI: nat, argI: nat, hasValue: seq<bool>)
      requires InScan(Snapshot(), words, Cursor(wordI0, argI0, hasValue0, mem.cells)) && wordI0 < |words|
      modifies mem
      ensures match ScanStep(Snapshot(), words, Cursor(wordI0, argI0, hasValue0, old(mem.cells)), stod)
        case Abort(e, cells) => failure == Some(e) && mem.cells == cells
        case Next(c) => failure.None? && Cursor(wordI, argI, hasValue, mem.cells) == c
    {
      wordI, argI, hasValue := wordI0, argI0, hasValue0;
      var word := words[wordI];
      wordI := wordI + 1;

      var isFlag := IsDash(word);
      var elementI: nat;
      if !isFlag {
        if argI == |args| {
          return Some(ExtraPositional(word)), wordI, argI, hasValue;
        }
        elementI := args[argI];
        argI := argI + 1;
      } else {
        if word !in flags {
          return Some(UnknownFlag(word)), wordI, argI, hasValue;
        }
        elementI := flags[word];
      }

      var element := elements[elementI];
      hasValue := hasValue[elementI := true];

      if isFlag && element.shape.BoolField? {
        mem.cells := mem.cells[element.output := VBool(true)];
        return None, wordI, argI, hasValue;
      }

      if isFlag {
        if wordI == |words| {
          return Some(MissingFlagValue(word)), wordI, argI, hasValue;
        }
        word := words[wordI];
        wordI := wordI + 1;
      }

      if element.shape.StringListField? {
        wordI := CollectList(words, wordI, isFlag, word, element.output, mem);
      } else {
        var coerced := Coerce(element, word, stod);
        if coerced.Rejected? {
          return Some(coerced.error), wordI, argI, hasValue;
        }
        mem.cells := mem.cells[element.output := coerced.value];
      }
      return None, wordI, argI, hasValue;
    }

    /**
     * The string-list branch of `parse`: clear the list, push the value
     * word, then push following words until the end or, when the list was
     * reached through a flag, until a word starting with '-'.
     */
    method CollectList(words: seq<string>, start: nat, viaFlag: bool, first: string, output: Cell, mem: Memory)
      returns (wordI: nat)
      requires start <= |words|
      modifies mem
      ensures wordI == ListEnd(words, start, viaFlag)
      ensures mem.cells == old(mem.cells)[output := VStringList([first] + words[start..wordI])]
    {
      wordI := start;
      var list := [first];
      mem.cells := mem.cells[output := VStringList(list)];
      while wordI != |words|
        invariant start <= wordI <= |words|
        invariant ListEnd(words, wordI, viaFlag) == ListEnd(words, start, viaFlag)
        invariant list == [first] + words[start..wordI]
        invariant mem.cells == old(mem.cells)[output := VStringList(list)]
        decreases |words| - wordI
      {
        var next := words[wordI];
        if viaFlag && IsDash(next) {
          break;
        }
        list := list + [next];
        assert words[start..wordI + 1] == words[start..wordI] + [next];
        mem.cells := mem.cells[output := VStringList(list)];
        wordI := wordI + 1;
      }
    }
  }
}
