/** The printers over an argument dictionary, read in insertion order:
    `getArgsToVarsStr` gives the argument list of the field selection,
    either `name: $key` per entry or, when values are generated,
    `name: value` through `mapGeneratedArgsToVars` and
    `generateArgumentsValues`; `getVarsToTypesStr` gives the variable
    declarations `$key: Type` of the operation. Entries are joined by `, `. */
module Render {
  import opened Text
  import opened GraphQLTypes
  import opened ScalarMocks
  import opened ArgValues
  import opened ArgsDict

  /** `generateArgumentsValues(arg, key, requiredOnly)`: `"" + value`, so a
      null value reads `null`. `requiredOnly` is passed down and never read. */
  function GenerateArgumentsValues(arg: InputValue, requiredOnly: bool, rng: Rng, pos: nat): (d: Drawn<string>)
    requires Generable(arg.typ)
    ensures !IsRequired(arg.typ) ==> d == Drawn("null", pos)
    ensures d.next >= pos
  {
    var v := ArgValue(arg.typ, rng, pos);
    Drawn(ShowValue(v.value), v.next)
  }

  /** Outside enums and the `Any` scalar (whose generator gives `null`),
      the value reads `null` exactly when the argument is not required:
      scalar mocks are quoted strings, digits, `true`, decimals or
      bracketed lists, and input objects are braced. */
  lemma NullIffNotRequired(arg: InputValue, requiredOnly: bool, rng: Rng, pos: nat)
    requires Generable(arg.typ) && !BaseOf(arg.typ).Enum? && BaseOf(arg.typ) != Scalar("Any")
    ensures GenerateArgumentsValues(arg, requiredOnly, rng, pos).value == "null" <==> !IsRequired(arg.typ)
  {
    if IsRequired(arg.typ) {
      RequiredNotNull(arg.typ, rng, pos);
    }
  }

  /** A required `Any!` reads `null` all the same. */
  lemma RequiredAnyIsNull(arg: InputValue, requiredOnly: bool, rng: Rng, pos: nat)
    requires Generable(arg.typ) && IsRequired(arg.typ) && !IsList(arg.typ) && BaseOf(arg.typ) == Scalar("Any")
    ensures GenerateArgumentsValues(arg, requiredOnly, rng, pos).value == "null"
  {
  }

  lemma RequiredNotNull(t: TypeRef, rng: Rng, pos: nat)
    requires Generable(t) && IsRequired(t) && !BaseOf(t).Enum? && BaseOf(t) != Scalar("Any")
    ensures ShowValue(ArgValue(t, rng, pos).value) != "null"
  {
    GenerableBase(t);
    var text := ShowValue(ArgValue(t, rng, pos).value);
    match BaseOf(t)
    case InputObject(_, fields) =>
      assert text[0] == '{';
    case Scalar(name) =>
      var g := ScalarMock(name, IsList(t), rng, pos).value;
      if IsList(t) {
        assert text[0] == '[';
      } else {
        ScalarMockNotNull(name, rng, pos);
      }
  }

  /** The text of a scalar mock outside a list is never `null`. */
  lemma ScalarMockNotNull(name: string, rng: Rng, pos: nat)
    requires name != "List" && name != "Any"
    ensures ToText(ScalarMock(name, false, rng, pos).value) != "null"
  {
    var v := ScalarMock(name, false, rng, pos).value;
    var text := ToText(v);
    if name == "Float" {
      assert v == FloatMock(rng, pos).value;
    }
    if v.JsString? {
      assert text[0] == '\'';
    } else if v.JsNumber? || v.JsFloat? {
      assert AllDigits(text) && !IsDigit('n');
    }
  }

  /** `mapGeneratedArgsToVars(key, arg, requiredOnly)`: `name: value`. */
  function MapGeneratedArgsToVars(key: string, arg: InputValue, requiredOnly: bool, rng: Rng, pos: nat): (d: Drawn<string>)
    requires Generable(arg.typ)
    ensures arg.name + ": " <= d.value
    ensures !IsRequired(arg.typ) ==> d == Drawn(arg.name + ": null", pos)
    ensures d.next >= pos
  {
    var v := GenerateArgumentsValues(arg, requiredOnly, rng, pos);
    var entry := arg.name + ": " + v.value;
    assert arg.name + ": " <= entry;
    assert arg.name + ": " + "null" == arg.name + ": null";
    Drawn(entry, v.next)
  }

  /** The entry of `getArgsToVarsStr` without generated values: the
      argument is passed the variable named by its key. */
  function VarReference(key: string, arg: InputValue): string
  {
    arg.name + ": $" + key
  }

  /** A plain entry reads back: the argument's name and `: $`, then the key. */
  lemma VarReferenceKey(key: string, arg: InputValue)
    ensures arg.name + ": $" <= VarReference(key, arg)
    ensures VarReference(key, arg)[|arg.name| + 3..] == key
  {
  }

  /** The callback `getArgsToVarsStr` maps over the entries. */
  function Entry(key: string, arg: InputValue, generateValues: bool, requiredOnly: bool, rng: Rng, pos: nat): (d: Drawn<string>)
    requires generateValues ==> Generable(arg.typ)
    ensures arg.name + ": " <= d.value
    ensures !generateValues ==> d == Drawn(VarReference(key, arg), pos)
    ensures d.next >= pos
  {
    if generateValues then MapGeneratedArgsToVars(key, arg, requiredOnly, rng, pos)
    else
      assert arg.name + ": " <= arg.name + ": " + ("$" + key);
      Drawn(VarReference(key, arg), pos)
  }

  predicate DictGenerable(dict: Dict)
  {
    forall i :: 0 <= i < |dict| ==> Generable(dict[i].1.typ)
  }

  /** The entries of `getArgsToVarsStr`, one per dictionary entry and in
      its order; generated values draw from the random source one entry
      after another. */
  function ArgEntries(dict: Dict, generateValues: bool, requiredOnly: bool, rng: Rng, pos: nat): (d: Drawn<seq<string>>)
    requires generateValues ==> DictGenerable(dict)
    ensures |d.value| == |dict|
    ensures !generateValues ==> d.next == pos
    ensures d.next >= pos
  {
    if dict == [] then Drawn([], pos)
    else
      var head := Entry(dict[0].0, dict[0].1, generateValues, requiredOnly, rng, pos);
      var rest := ArgEntries(dict[1..], generateValues, requiredOnly, rng, head.next);
      Drawn([head.value] + rest.value, rest.next)
  }

  /** Every entry starts with its argument's name and `: `. */
  lemma {:induction false} EntriesNamed(dict: Dict, generateValues: bool, requiredOnly: bool, rng: Rng, pos: nat)
    requires generateValues ==> DictGenerable(dict)
    ensures forall i :: 0 <= i < |dict| ==>
      dict[i].1.name + ": " <= ArgEntries(dict, generateValues, requiredOnly, rng, pos).value[i]
  {
    if dict != [] {
      var head := Entry(dict[0].0, dict[0].1, generateValues, requiredOnly, rng, pos);
      assert dict[0].1.name + ": " <= head.value;
      EntriesNamed(dict[1..], generateValues, requiredOnly, rng, head.next);
    }
  }

  /** Without generated values, entry `i` passes argument `i` the variable named by key `i`. */
  lemma {:induction false} PlainEntries(dict: Dict, requiredOnly: bool, rng: Rng, pos: nat)
    ensures forall i :: 0 <= i < |dict| ==>
      ArgEntries(dict, false, requiredOnly, rng, pos).value[i] == VarReference(dict[i].0, dict[i].1)
  {
    if dict != [] {
      PlainEntries(dict[1..], requiredOnly, rng, pos);
    }
  }

  /** With generated values, an argument that is not required reads `name: null`. */
  lemma {:induction false} OptionalEntriesNull(dict: Dict, requiredOnly: bool, rng: Rng, pos: nat)
    requires DictGenerable(dict)
    ensures forall i :: 0 <= i < |dict| && !IsRequired(dict[i].1.typ) ==>
      ArgEntries(dict, true, requiredOnly, rng, pos).value[i] == dict[i].1.name + ": null"
  {
    if dict != [] {
      var head := MapGeneratedArgsToVars(dict[0].0, dict[0].1, requiredOnly, rng, pos);
      OptionalEntriesNull(dict[1..], requiredOnly, rng, head.next);
    }
  }

  /** The draw position at which entry `i`'s value is generated: where
      the values of the entries before it stopped drawing. */
  function EntryPos(dict: Dict, rng: Rng, pos: nat, i: nat): (p: nat)
    requires DictGenerable(dict) && i < |dict|
    ensures pos <= p
    decreases i
  {
    if i == 0 then pos
    else EntryPos(dict[1..], rng, ArgValue(dict[0].1.typ, rng, pos).next, i - 1)
  }

  /** One generated entry: the argument's name, `: ` and its synthesized value. */
  lemma GeneratedEntry(key: string, arg: InputValue, requiredOnly: bool, rng: Rng, pos: nat)
    requires Generable(arg.typ)
    ensures var v := ArgValue(arg.typ, rng, pos);
      Entry(key, arg, true, requiredOnly, rng, pos) == Drawn(arg.name + ": " + ShowValue(v.value), v.next)
  {
  }

  /** With generated values, entry `i` is argument `i`'s name, `: ` and the
      text of the value synthesized for that argument, drawn where the
      earlier entries stopped. */
  lemma {:induction false} GeneratedEntryAt(dict: Dict, requiredOnly: bool, rng: Rng, pos: nat, i: nat)
    requires DictGenerable(dict) && i < |dict|
    ensures ArgEntries(dict, true, requiredOnly, rng, pos).value[i] ==
      dict[i].1.name + ": " + ShowValue(ArgValue(dict[i].1.typ, rng, EntryPos(dict, rng, pos, i)).value)
    decreases i
  {
    var head := Entry(dict[0].0, dict[0].1, true, requiredOnly, rng, pos);
    var rest := ArgEntries(dict[1..], true, requiredOnly, rng, head.next);
    var all := ArgEntries(dict, true, requiredOnly, rng, pos).value;
    ArgEntriesCons(dict, true, requiredOnly, rng, pos);
    GeneratedEntry(dict[0].0, dict[0].1, requiredOnly, rng, pos);
    if i > 0 {
      GeneratedEntryAt(dict[1..], requiredOnly, rng, head.next, i - 1);
      assert all[i] == rest.value[i - 1];
      assert dict[1..][i - 1] == dict[i];
      assert EntryPos(dict, rng, pos, i) == EntryPos(dict[1..], rng, head.next, i - 1);
    } else {
      assert all[0] == head.value;
    }
  }

  /** `getArgsToVarsStr(dict, generateValues, requiredOnly)`. */
  function ArgsToVarsStr(dict: Dict, generateValues: bool, requiredOnly: bool, rng: Rng, pos: nat): (d: Drawn<string>)
    requires generateValues ==> DictGenerable(dict)
    ensures dict == [] ==> d == Drawn("", pos)
    ensures !generateValues ==> d.next == pos
  {
    var e := ArgEntries(dict, generateValues, requiredOnly, rng, pos);
    Drawn(Join(", ", e.value), e.next)
  }

  /** The declaration `$key: Type` of the variable an entry is passed. */
  function VarDeclaration(key: string, arg: InputValue): string
  {
    "$" + key + ": " + TypeText(arg.typ)
  }

  /** A declaration reads back: `$`, the key and `: `, then the printed type. */
  lemma VarDeclarationParts(key: string, arg: InputValue)
    ensures "$" + key + ": " <= VarDeclaration(key, arg)
    ensures VarDeclaration(key, arg)[|key| + 3..] == TypeText(arg.typ)
  {
  }

  function VarDeclarations(dict: Dict): (r: seq<string>)
    ensures |r| == |dict|
    ensures forall i :: 0 <= i < |dict| ==> r[i] == VarDeclaration(dict[i].0, dict[i].1)
  {
    if dict == [] then [] else [VarDeclaration(dict[0].0, dict[0].1)] + VarDeclarations(dict[1..])
  }

  /** `getVarsToTypesStr(dict)`. */
  function VarsToTypesStr(dict: Dict): (s: string)
    ensures dict == [] ==> s == ""
  {
    Join(", ", VarDeclarations(dict))
  }

  // ---------------------------------------------------------------------
  // Properties

  /** Each reference `name: $key` uses the very variable the declaration at
      the same position declares. */
  lemma {:induction false} ReferencesMatchDeclarations(dict: Dict, requiredOnly: bool, rng: Rng, pos: nat, i: nat)
    requires i < |dict|
    ensures var key := dict[i].0;
      ArgEntries(dict, false, requiredOnly, rng, pos).value[i] == dict[i].1.name + ": " + ("$" + key) &&
      "$" + key + ": " <= VarDeclarations(dict)[i]
  {
    PlainEntries(dict, requiredOnly, rng, pos);
    var key := dict[i].0;
    assert dict[i].1.name + ": $" + key == dict[i].1.name + ": " + ("$" + key);
    assert VarDeclarations(dict)[i] == "$" + key + ": " + TypeText(dict[i].1.typ);
  }

  /** The declarations of two dictionaries laid end to end are those of the parts. */
  lemma {:induction false} VarDeclarationsAppend(d1: Dict, d2: Dict)
    ensures VarDeclarations(d1 + d2) == VarDeclarations(d1) + VarDeclarations(d2)
  {
    var l, r := VarDeclarations(d1 + d2), VarDeclarations(d1) + VarDeclarations(d2);
    assert |l| == |r|;
    forall i | 0 <= i < |l|
      ensures l[i] == r[i]
    {
      if i < |d1| {
        assert (d1 + d2)[i] == d1[i];
      } else {
        assert (d1 + d2)[i] == d2[i - |d1|];
      }
    }
  }

  /** `getVarsToTypesStr` of a concatenation joins the two halves with `, `. */
  lemma VarsToTypesAppend(d1: Dict, d2: Dict)
    requires d1 != [] && d2 != []
    ensures VarsToTypesStr(d1 + d2) == VarsToTypesStr(d1) + ", " + VarsToTypesStr(d2)
  {
    VarDeclarationsAppend(d1, d2);
    JoinAppend(", ", VarDeclarations(d1), VarDeclarations(d2));
  }

  lemma DictGenerableAppend(d1: Dict, d2: Dict)
    requires DictGenerable(d1) && DictGenerable(d2)
    ensures DictGenerable(d1 + d2)
  {
    forall i | 0 <= i < |d1 + d2|
      ensures Generable((d1 + d2)[i].1.typ)
    {
      if i < |d1| {
        assert (d1 + d2)[i] == d1[i];
      } else {
        assert (d1 + d2)[i] == d2[i - |d1|];
      }
    }
  }

  /** The entries of a concatenation: those of the first part, then those
      of the second drawn from where the first stopped. */
  lemma {:induction false} ArgEntriesAppend(d1: Dict, d2: Dict, generateValues: bool, requiredOnly: bool, rng: Rng, pos: nat)
    requires generateValues ==> DictGenerable(d1) && DictGenerable(d2)
    ensures generateValues ==> DictGenerable(d1 + d2)
    ensures var e1 := ArgEntries(d1, generateValues, requiredOnly, rng, pos);
      var e2 := ArgEntries(d2, generateValues, requiredOnly, rng, e1.next);
      ArgEntries(d1 + d2, generateValues, requiredOnly, rng, pos) == Drawn(e1.value + e2.value, e2.next)
  {
    if generateValues {
      DictGenerableAppend(d1, d2);
    }
    if d1 == [] {
      assert d1 + d2 == d2;
      var e2 := ArgEntries(d2, generateValues, requiredOnly, rng, pos);
      assert [] + e2.value == e2.value;
    } else {
      var d := d1 + d2;
      assert d[0] == d1[0];
      assert d[1..] == d1[1..] + d2;
      var head := Entry(d1[0].0, d1[0].1, generateValues, requiredOnly, rng, pos);
      ArgEntriesAppend(d1[1..], d2, generateValues, requiredOnly, rng, head.next);
      var a := ArgEntries(d1[1..], generateValues, requiredOnly, rng, head.next);
      var b := ArgEntries(d2, generateValues, requiredOnly, rng, a.next);
      ArgEntriesCons(d1, generateValues, requiredOnly, rng, pos);
      ArgEntriesCons(d, generateValues, requiredOnly, rng, pos);
      assert [head.value] + (a.value + b.value) == ([head.value] + a.value) + b.value;
    }
  }

  lemma ArgEntriesCons(dict: Dict, generateValues: bool, requiredOnly: bool, rng: Rng, pos: nat)
    requires dict != [] && (generateValues ==> DictGenerable(dict))
    ensures var head := Entry(dict[0].0, dict[0].1, generateValues, requiredOnly, rng, pos);
      var rest := ArgEntries(dict[1..], generateValues, requiredOnly, rng, head.next);
      ArgEntries(dict, generateValues, requiredOnly, rng, pos) == Drawn([head.value] + rest.value, rest.next)
  {
  }

  /** `getArgsToVarsStr` of a concatenation joins the two halves with `, `
      and draws for the second half after the first. */
  lemma ArgsToVarsAppend(d1: Dict, d2: Dict, generateValues: bool, requiredOnly: bool, rng: Rng, pos: nat)
    requires d1 != [] && d2 != []
    requires generateValues ==> DictGenerable(d1) && DictGenerable(d2)
    ensures generateValues ==> DictGenerable(d1 + d2)
    ensures var s1 := ArgsToVarsStr(d1, generateValues, requiredOnly, rng, pos);
      var s2 := ArgsToVarsStr(d2, generateValues, requiredOnly, rng, s1.next);
      ArgsToVarsStr(d1 + d2, generateValues, requiredOnly, rng, pos) == Drawn(s1.value + ", " + s2.value, s2.next)
  {
    ArgEntriesAppend(d1, d2, generateValues, requiredOnly, rng, pos);
    var e1 := ArgEntries(d1, generateValues, requiredOnly, rng, pos);
    JoinAppend(", ", e1.value, ArgEntries(d2, generateValues, requiredOnly, rng, e1.next).value);
  }

  /** Whether only required arguments are asked for changes nothing. */
  lemma {:induction false} RequiredOnlyIgnored(dict: Dict, generateValues: bool, rng: Rng, pos: nat)
    requires generateValues ==> DictGenerable(dict)
    ensures ArgEntries(dict, generateValues, true, rng, pos) == ArgEntries(dict, generateValues, false, rng, pos)
    ensures ArgsToVarsStr(dict, generateValues, true, rng, pos) == ArgsToVarsStr(dict, generateValues, false, rng, pos)
  {
    if dict != [] {
      var head := Entry(dict[0].0, dict[0].1, generateValues, true, rng, pos);
      RequiredOnlyIgnored(dict[1..], generateValues, rng, head.next);
    }
  }

  /** With no required argument, generated values draw nothing and every
      entry reads `name: null`. */
  lemma NothingRequired(dict: Dict, requiredOnly: bool, rng: Rng, pos: nat)
    requires DictGenerable(dict)
    requires forall i :: 0 <= i < |dict| ==> !IsRequired(dict[i].1.typ)
    ensures ArgsToVarsStr(dict, true, requiredOnly, rng, pos) ==
      Drawn(Join(", ", seq(|dict|, i requires 0 <= i < |dict| => dict[i].1.name + ": null")), pos)
  {
    NothingRequiredEntries(dict, requiredOnly, rng, pos);
    OptionalEntriesNull(dict, requiredOnly, rng, pos);
    var e := ArgEntries(dict, true, requiredOnly, rng, pos);
    assert e.value == seq(|dict|, i requires 0 <= i < |dict| => dict[i].1.name + ": null");
  }

  lemma {:induction false} NothingRequiredEntries(dict: Dict, requiredOnly: bool, rng: Rng, pos: nat)
    requires DictGenerable(dict)
    requires forall i :: 0 <= i < |dict| ==> !IsRequired(dict[i].1.typ)
    ensures ArgEntries(dict, true, requiredOnly, rng, pos).next == pos
  {
    if dict != [] {
      NothingRequiredEntries(dict[1..], requiredOnly, rng, pos);
    }
  }

  /** The variable declarations are bracket-balanced when no key and no
      base type name holds a bracket. */
  lemma {:induction false} VarsToTypesBalanced(dict: Dict)
    requires forall i :: 0 <= i < |dict| ==> NoBrackets(dict[i].0) && NoBrackets(BaseOf(dict[i].1.typ).name)
    ensures Balanced(VarsToTypesStr(dict))
  {
    var decls := VarDeclarations(dict);
    forall i | 0 <= i < |decls|
      ensures Balanced(decls[i])
    {
      var key, t := dict[i].0, dict[i].1.typ;
      NoBracketsConcat("$", key);
      NoBracketsConcat("$" + key, ": ");
      NoBracketsBalanced("$" + key + ": ");
      TypeTextBalanced(t);
      BalancedConcat("$" + key + ": ", TypeText(t));
    }
    BalancedJoin(", ", decls);
  }

  /** The generated argument list is bracket-balanced when argument names,
      input-object field names and enum values are GraphQL names. */
  lemma {:induction false} GeneratedArgsBalanced(dict: Dict, requiredOnly: bool, rng: Rng, pos: nat)
    requires DictGenerable(dict)
    requires forall i :: 0 <= i < |dict| ==> IsName(dict[i].1.name) && NamesValid(dict[i].1.typ)
    ensures Balanced(ArgsToVarsStr(dict, true, requiredOnly, rng, pos).value)
  {
    GeneratedEntriesBalanced(dict, requiredOnly, rng, pos);
    BalancedJoin(", ", ArgEntries(dict, true, requiredOnly, rng, pos).value);
  }

  lemma {:induction false} GeneratedEntriesBalanced(dict: Dict, requiredOnly: bool, rng: Rng, pos: nat)
    requires DictGenerable(dict)
    requires forall i :: 0 <= i < |dict| ==> IsName(dict[i].1.name) && NamesValid(dict[i].1.typ)
    ensures forall i :: 0 <= i < |dict| ==> Balanced(ArgEntries(dict, true, requiredOnly, rng, pos).value[i])
  {
    if dict != [] {
      var arg := dict[0].1;
      var head := MapGeneratedArgsToVars(dict[0].0, arg, requiredOnly, rng, pos);
      var prefix := arg.name + ": ";
      ArgValueBalanced(arg.typ, rng, pos);
      NameNoBrackets(arg.name);
      NoBracketsConcat(arg.name, ": ");
      NoBracketsBalanced(prefix);
      BalancedConcat(prefix, ShowValue(ArgValue(arg.typ, rng, pos).value));
      GeneratedEntriesBalanced(dict[1..], requiredOnly, rng, head.next);
    }
  }

  // ---------------------------------------------------------------------
  // The `DoWork(name: String!, amount: Int)` mutation

  function NameArg(): InputValue { InputValue("name", NonNull(Named(Scalar("String")))) }
  function AmountArg(): InputValue { InputValue("amount", Named(Scalar("Int"))) }
  function DoWork(): Field { Field("DoWork", [NameArg(), AmountArg()]) }

  /** A root field with fresh counters keys its arguments by their names. */
  lemma DoWorkDict()
    ensures FieldArgsDict(DoWork(), map[], [], []) == Outcome([("name", NameArg()), ("amount", AmountArg())], map[])
  {
    NoCollisionKeys(DoWork(), map[], [], []);
    assert seq(2, j requires 0 <= j < 2 => (PlainKey(DoWork(), [], j), DoWork().args[j])) ==
      [("name", NameArg()), ("amount", AmountArg())];
  }

  function DoWorkArgs(): Dict { [("name", NameArg()), ("amount", AmountArg())] }

  /** Its argument list without generated values. */
  lemma DoWorkVars(rng: Rng, pos: nat, requiredOnly: bool)
    ensures ArgsToVarsStr(DoWorkArgs(), false, requiredOnly, rng, pos) == Drawn("name: $name, amount: $amount", pos)
  {
    var dict := DoWorkArgs();
    assert dict[1..] == [("amount", AmountArg())];
    assert VarReference("name", NameArg()) == "name: $name";
    assert VarReference("amount", AmountArg()) == "amount: $amount";
    PlainEntries(dict, requiredOnly, rng, pos);
    var e := ArgEntries(dict, false, requiredOnly, rng, pos).value;
    assert e == ["name: $name", "amount: $amount"];
    JoinTwo("name: $name", "amount: $amount");
    VarsText();
  }

  // A step of its caller's proof, kept apart so that proof stays cheap.
  lemma VarsText()
    ensures "name: $name" + ", " + "amount: $amount" == "name: $name, amount: $amount"
  {
  }

  /** Its variable declarations. */
  lemma DoWorkTypes()
    ensures VarsToTypesStr(DoWorkArgs()) == "$name: String!, $amount: Int"
  {
    var dict := DoWorkArgs();
    assert dict[1..] == [("amount", AmountArg())];
    assert VarDeclaration("name", NameArg()) == "$name: String!";
    assert VarDeclaration("amount", AmountArg()) == "$amount: Int";
    var decls := VarDeclarations(dict);
    assert decls == ["$name: String!", "$amount: Int"];
    assert decls[1..] == ["$amount: Int"];
    assert Join(", ", decls) == "$name: String!" + ", " + "$amount: Int";
  }

  /** The `name: String!` entry draws one String mock. */
  lemma NameEntry(rng: Rng, pos: nat, requiredOnly: bool)
    ensures MapGeneratedArgsToVars("name", NameArg(), requiredOnly, rng, pos) ==
      Drawn("name: " + StringMock(rng, pos, DefaultLength).value.s, pos + DefaultLength)
  {
    var t := NameArg().typ;
    assert Wrappers(t) == [NonNullWrapper];
    assert IsRequired(t) && !IsList(t) && BaseOf(t) == Scalar("String");
    assert ScalarMock("String", false, rng, pos) == Generate("String", rng, pos);
    var s := StringMock(rng, pos, DefaultLength).value.s;
    assert GenerateArgumentsValues(NameArg(), requiredOnly, rng, pos) == Drawn(s, pos + DefaultLength);
    NamePrefix(s);
  }

  // A step of its caller's proof, kept apart so that proof stays cheap.
  lemma NamePrefix(s: string)
    ensures "name" + ": " + s == "name: " + s
  {
  }

  /** The `amount: Int` entry draws nothing and reads `amount: null`. */
  lemma AmountEntry(rng: Rng, pos: nat, requiredOnly: bool)
    ensures MapGeneratedArgsToVars("amount", AmountArg(), requiredOnly, rng, pos) == Drawn("amount: null", pos)
  {
    assert Wrappers(AmountArg().typ) == [];
    assert !IsRequired(AmountArg().typ);
    assert "amount" + ": " + "null" == "amount: null";
  }

  lemma DoWorkTail(rng: Rng, p: nat, requiredOnly: bool)
    ensures ArgEntries(DoWorkArgs()[1..], true, requiredOnly, rng, p) == Drawn(["amount: null"], p)
  {
    var tail := [("amount", AmountArg())];
    assert DoWorkArgs()[1..] == tail;
    assert tail[1..] == [];
    AmountEntry(rng, p, requiredOnly);
    assert ArgEntries([], true, requiredOnly, rng, p) == Drawn([], p);
    assert ["amount: null"] + [] == ["amount: null"];
  }

  // A step of its caller's proof, kept apart so that proof stays cheap.
  lemma JoinTwo(a: string, b: string)
    ensures Join(", ", [a, b]) == a + ", " + b
  {
    assert [a, b][1..] == [b];
  }

  // A step of its caller's proof, kept apart so that proof stays cheap.
  lemma TailText(a: string)
    ensures a + ", " + "amount: null" == a + ", amount: null"
  {
    assert ", " + "amount: null" == ", amount: null";
    assert a + ", " + "amount: null" == a + (", " + "amount: null");
  }

  /** Its generated entries: one String mock for `name`, then `amount: null`. */
  lemma DoWorkEntries(rng: Rng, pos: nat, requiredOnly: bool)
    ensures ArgEntries(DoWorkArgs(), true, requiredOnly, rng, pos) ==
      Drawn(["name: " + StringMock(rng, pos, DefaultLength).value.s, "amount: null"], pos + DefaultLength)
  {
    var a := "name: " + StringMock(rng, pos, DefaultLength).value.s;
    NameEntry(rng, pos, requiredOnly);
    DoWorkTail(rng, pos + DefaultLength, requiredOnly);
    assert [a] + ["amount: null"] == [a, "amount: null"];
  }

  lemma DoWorkJoined(rng: Rng, pos: nat, requiredOnly: bool)
    ensures ArgsToVarsStr(DoWorkArgs(), true, requiredOnly, rng, pos) ==
      Drawn("name: " + StringMock(rng, pos, DefaultLength).value.s + ", amount: null", pos + DefaultLength)
  {
    var a := "name: " + StringMock(rng, pos, DefaultLength).value.s;
    DoWorkEntries(rng, pos, requiredOnly);
    JoinTwo(a, "amount: null");
    TailText(a);
  }

  /** Its argument list with generated values: a quoted ten-character
      mock for the required `name`, `null` for the optional `amount`. */
  lemma DoWorkGenerated(rng: Rng, pos: nat, requiredOnly: bool)
    ensures exists s :: (IsQuotedAlnum(s, DefaultLength) &&
      ArgsToVarsStr(DoWorkArgs(), true, requiredOnly, rng, pos) == Drawn("name: " + s + ", amount: null", pos + DefaultLength))
  {
    var s := StringMock(rng, pos, DefaultLength).value.s;
    DoWorkJoined(rng, pos, requiredOnly);
    assert IsQuotedAlnum(s, DefaultLength);
  }
}
