/** The argument value synthesizer: `generateArgumentsValues` and its inner
    `createArgumentValueRecursively`. A type that is not required gives the
    null marker; a required input object gives `{ f: v,... }` over its
    declared fields; a required enum gives its first declared value; a
    required scalar goes through the scalar mock generator, in brackets when
    the type is a list. */
module ArgValues {
  import opened Text
  import opened GraphQLTypes
  import opened ScalarMocks

  /** What `createArgumentValueRecursively` returns: `null`, or a literal text. */
  datatype Value = Null | Literal(text: string)

  /** The text a template literal or `+=` puts down for a value. */
  function ShowValue(v: Value): (r: string)
    ensures r == "null" <==> v == Null || v == Literal("null")
    ensures v.Literal? ==> r == v.text
  {
    match v
    case Null => "null"
    case Literal(text) => text
  }

  /** `createArgumentValueRecursively` on a reference of type `t`. */
  function ArgValue(t: TypeRef, rng: Rng, pos: nat): (d: Drawn<Value>)
    requires Generable(t)
    ensures d.value.Null? <==> !IsRequired(t)
    ensures !IsRequired(t) ==> d.next == pos
    ensures d.next >= pos
    decreases Size(t), 1
  {
    if !IsRequired(t) then Drawn(Null, pos)
    else
      BaseSize(t);
      GenerableBase(t);
      match BaseOf(t)
      case InputObject(_, fields) =>
        var parts := FieldValues(fields, rng, pos);
        Drawn(Literal("{ " + Join(",", parts.value) + " }"), parts.next)
      case Enum(_, values) =>
        Drawn(Literal(values[0]), pos)
      case Scalar(name) =>
        var g := ScalarMock(name, IsList(t), rng, pos);
        if IsList(t) then Drawn(Literal("[" + ToText(g.value) + "]"), g.next)
        else Drawn(Literal(ToText(g.value)), g.next)
  }

  /** The `field: value` entries of an input object, one per declared field
      in declaration order; a field that is not required reads `field: null`. */
  function FieldValues(fields: seq<InputValue>, rng: Rng, pos: nat): (d: Drawn<seq<string>>)
    requires forall i :: 0 <= i < |fields| ==> Generable(fields[i].typ)
    ensures |d.value| == |fields|
    ensures forall i :: 0 <= i < |fields| ==> fields[i].name + ": " <= d.value[i]
    ensures forall i :: 0 <= i < |fields| && !IsRequired(fields[i].typ) ==>
      d.value[i] == fields[i].name + ": null"
    ensures d.next >= pos
    decreases FieldsSize(fields), 0
  {
    if fields == [] then Drawn([], pos)
    else
      var head := ArgValue(fields[0].typ, rng, pos);
      var rest := FieldValues(fields[1..], rng, head.next);
      var entry := fields[0].name + ": " + ShowValue(head.value);
      assert fields[0].name + ": " <= entry;
      Drawn([entry] + rest.value, rest.next)
  }

  /** The draw position at which field `i` of an input object is synthesized:
      where the fields before it stopped drawing. */
  function FieldPos(fields: seq<InputValue>, rng: Rng, pos: nat, i: nat): (p: nat)
    requires forall j :: 0 <= j < |fields| ==> Generable(fields[j].typ)
    requires i < |fields|
    ensures pos <= p
    decreases i
  {
    if i == 0 then pos
    else FieldPos(fields[1..], rng, ArgValue(fields[0].typ, rng, pos).next, i - 1)
  }

  /** Entry `i` of an input object is field `i`'s name, `: ` and that
      field's own synthesized value, drawn where the earlier fields stopped. */
  lemma {:induction false} FieldValueAt(fields: seq<InputValue>, rng: Rng, pos: nat, i: nat)
    requires forall j :: 0 <= j < |fields| ==> Generable(fields[j].typ)
    requires i < |fields|
    ensures FieldValues(fields, rng, pos).value[i] ==
      fields[i].name + ": " + ShowValue(ArgValue(fields[i].typ, rng, FieldPos(fields, rng, pos, i)).value)
    decreases i
  {
    var head := ArgValue(fields[0].typ, rng, pos);
    var rest := FieldValues(fields[1..], rng, head.next);
    var all := FieldValues(fields, rng, pos).value;
    assert all == [fields[0].name + ": " + ShowValue(head.value)] + rest.value;
    if i > 0 {
      FieldValueAt(fields[1..], rng, head.next, i - 1);
      assert all[i] == rest.value[i - 1];
      assert fields[1..][i - 1] == fields[i];
      assert FieldPos(fields, rng, pos, i) == FieldPos(fields[1..], rng, head.next, i - 1);
    } else {
      assert all[0] == fields[0].name + ": " + ShowValue(head.value);
    }
  }

  // ---------------------------------------------------------------------
  // Shape of the synthesized values

  /** An input object renders as its field entries joined by `,` inside `{ ` and ` }`. */
  lemma InputObjectValue(t: TypeRef, rng: Rng, pos: nat)
    requires Generable(t) && IsRequired(t) && BaseOf(t).InputObject?
    ensures GenerableNamed(BaseOf(t))
    ensures ArgValue(t, rng, pos).value ==
      Literal("{ " + Join(",", FieldValues(BaseOf(t).fields, rng, pos).value) + " }")
  {
    GenerableBase(t);
  }

  /** The list flag adds no brackets to an input object or an enum: only
      the required flag and the base decide their value. */
  lemma ListFlagIgnoredOutsideScalars(t1: TypeRef, t2: TypeRef, rng: Rng, pos: nat)
    requires Generable(t1) && Generable(t2)
    requires BaseOf(t1) == BaseOf(t2) && !BaseOf(t1).Scalar?
    requires IsRequired(t1) == IsRequired(t2)
    ensures ArgValue(t1, rng, pos) == ArgValue(t2, rng, pos)
  {
  }

  /** A required enum yields its first declared value, whatever its list flag. */
  lemma EnumFirstValue(t: TypeRef, rng: Rng, pos: nat)
    requires Generable(t) && IsRequired(t) && BaseOf(t).Enum?
    ensures |BaseOf(t).values| > 0
    ensures ArgValue(t, rng, pos) == Drawn(Literal(BaseOf(t).values[0]), pos)
  {
    GenerableBase(t);
  }

  /** A required list of a table scalar is `[`, three generated elements
      joined by `,`, and `]`; each element is a fresh call of the scalar's
      generator where the previous one stopped drawing. */
  lemma KnownScalarList(t: TypeRef, rng: Rng, pos: nat)
    requires Generable(t) && IsRequired(t) && IsList(t)
    requires BaseOf(t).Scalar? && IsValueGenerator(BaseOf(t).name)
    ensures var name, k := BaseOf(t).name, Draws(BaseOf(t).name);
      ArgValue(t, rng, pos).value == Literal("[" + ElementText(name, rng, pos) + "," +
        ElementText(name, rng, pos + k) + "," + ElementText(name, rng, pos + 2 * k) + "]")
  {
    RequiredListScalar(t, rng, pos);
    BracketedList(BaseOf(t).name, rng, pos);
  }

  lemma BracketedList(name: string, rng: Rng, pos: nat)
    requires IsValueGenerator(name)
    ensures var k := Draws(name);
      "[" + ToText(ScalarMock(name, true, rng, pos).value) + "]" == "[" + ElementText(name, rng, pos) + "," +
        ElementText(name, rng, pos + k) + "," + ElementText(name, rng, pos + 2 * k) + "]"
  {
    var k := Draws(name);
    var text := ToText(ListMock(name, rng, pos, ListSize).value);
    assert ToText(ScalarMock(name, true, rng, pos).value) == text;
    ListText(name, rng, pos);
    Bracketed(ElementText(name, rng, pos), ElementText(name, rng, pos + k), ElementText(name, rng, pos + 2 * k));
  }

  /** A required list of a scalar is the scalar mock's text in brackets. */
  lemma RequiredListScalar(t: TypeRef, rng: Rng, pos: nat)
    requires Generable(t) && IsRequired(t) && IsList(t) && BaseOf(t).Scalar?
    ensures BaseOf(t).name != "List"
    ensures ArgValue(t, rng, pos).value == Literal("[" + ToText(ScalarMock(BaseOf(t).name, true, rng, pos).value) + "]")
  {
    GenerableBase(t);
  }

  // A step of its caller's proof, kept apart so that proof stays cheap.
  lemma Bracketed(a: string, b: string, c: string)
    ensures "[" + (a + "," + b + "," + c) + "]" == "[" + a + "," + b + "," + c + "]"
  {
  }

  /** A required table scalar outside a list is its own generator's value,
      drawn at the current position. */
  lemma TableScalar(t: TypeRef, rng: Rng, pos: nat)
    requires Generable(t) && IsRequired(t) && !IsList(t)
    requires BaseOf(t).Scalar? && IsValueGenerator(BaseOf(t).name)
    ensures ArgValue(t, rng, pos) ==
      Drawn(Literal(ToText(Generate(BaseOf(t).name, rng, pos).value)), pos + Draws(BaseOf(t).name))
  {
  }

  /** A required `Boolean` outside a list reads `true` and draws nothing. */
  lemma BooleanScalar(t: TypeRef, rng: Rng, pos: nat)
    requires Generable(t) && IsRequired(t) && !IsList(t) && BaseOf(t) == Scalar("Boolean")
    ensures ArgValue(t, rng, pos) == Drawn(Literal("true"), pos)
  {
    TableScalar(t, rng, pos);
  }

  /** A required `String` outside a list is a quoted 10-character mock. */
  lemma StringScalar(t: TypeRef, rng: Rng, pos: nat)
    requires Generable(t) && IsRequired(t) && !IsList(t) && BaseOf(t) == Scalar("String")
    ensures ArgValue(t, rng, pos).value.Literal?
    ensures IsQuotedAlnum(ArgValue(t, rng, pos).value.text, DefaultLength)
    ensures ArgValue(t, rng, pos).next == pos + DefaultLength
  {
    TableScalar(t, rng, pos);
  }

  /** A required `Float` outside a list is the text of a number in [0, 1000000),
      drawn once. */
  lemma FloatScalar(t: TypeRef, rng: Rng, pos: nat)
    requires Generable(t) && IsRequired(t) && !IsList(t) && BaseOf(t) == Scalar("Float")
    ensures ArgValue(t, rng, pos) == Drawn(Literal(FloatText(FloatMock(rng, pos).value.x)), pos + 1)
    ensures 0.0 <= FloatMock(rng, pos).value.x < IntBound as real
  {
    TableScalar(t, rng, pos);
  }

  /** `[Boolean!]!` gives `[true,true,true]`. */
  lemma BooleanList(t: TypeRef, rng: Rng, pos: nat)
    requires Generable(t) && IsRequired(t) && IsList(t) && BaseOf(t) == Scalar("Boolean")
    ensures ArgValue(t, rng, pos).value == Literal("[true,true,true]")
  {
    KnownScalarList(t, rng, pos);
    assert Draws("Boolean") == 0;
    assert ElementText("Boolean", rng, pos) == "true";
    TrueList();
  }

  // A step of its caller's proof, kept apart so that proof stays cheap.
  lemma TrueList()
    ensures "[" + "true" + "," + "true" + "," + "true" + "]" == "[true,true,true]"
  {
  }

  /** A required list of a scalar outside the table holds one String mock only. */
  lemma UnknownScalarList(t: TypeRef, rng: Rng, pos: nat)
    requires Generable(t) && IsRequired(t) && IsList(t)
    requires BaseOf(t).Scalar? && !HasOwnGenerator(BaseOf(t).name)
    ensures exists s :: IsQuotedAlnum(s, DefaultLength) && ArgValue(t, rng, pos).value == Literal("[" + s + "]")
  {
    var s := StringMock(rng, pos, DefaultLength).value.s;
    assert ArgValue(t, rng, pos).value == Literal("[" + s + "]");
  }

  /** A required scalar outside the table, not a list, is a String mock. */
  lemma UnknownScalar(t: TypeRef, rng: Rng, pos: nat)
    requires Generable(t) && IsRequired(t) && !IsList(t)
    requires BaseOf(t).Scalar? && !HasOwnGenerator(BaseOf(t).name)
    ensures ArgValue(t, rng, pos).value.Literal?
    ensures IsQuotedAlnum(ArgValue(t, rng, pos).value.text, DefaultLength)
    ensures ArgValue(t, rng, pos).next == pos + DefaultLength
  {
  }

  /** A required `Int` that is not a list is a decimal literal below 1000000. */
  lemma IntScalar(t: TypeRef, rng: Rng, pos: nat)
    requires Generable(t) && IsRequired(t) && !IsList(t) && BaseOf(t) == Scalar("Int")
    ensures ArgValue(t, rng, pos).value.Literal?
    ensures AllDigits(ArgValue(t, rng, pos).value.text)
    ensures ParseNat(ArgValue(t, rng, pos).value.text) < IntBound
  {
    var g := Generate("Int", rng, pos);
    assert ArgValue(t, rng, pos).value == Literal(NatToString(g.value.n));
    ParseNatToString(g.value.n);
  }

  // ---------------------------------------------------------------------
  // Balance

  /** Every synthesized value is bracket-balanced when the schema's field
      names and enum values are GraphQL names. */
  lemma {:induction false} ArgValueBalanced(t: TypeRef, rng: Rng, pos: nat)
    requires Generable(t) && NamesValid(t)
    ensures Balanced(ShowValue(ArgValue(t, rng, pos).value))
    decreases Size(t), 1
  {
    if !IsRequired(t) {
      NoBracketsBalanced("null");
    } else {
      BaseSize(t);
      GenerableBase(t);
      NamesValidBase(t);
      match BaseOf(t)
      case InputObject(_, fields) =>
        var parts := FieldValues(fields, rng, pos).value;
        FieldValuesBalanced(fields, rng, pos);
        BalancedJoin(",", parts);
        BalancedEnclose("{ ", Join(",", parts), " }");
      case Enum(_, values) =>
        NameNoBrackets(values[0]);
        NoBracketsBalanced(values[0]);
      case Scalar(name) =>
        var text := ToText(ScalarMock(name, IsList(t), rng, pos).value);
        ScalarMockNoBrackets(name, IsList(t), rng, pos);
        NoBracketsBalanced(text);
        if IsList(t) {
          BalancedEnclose("[", text, "]");
        }
    }
  }

  lemma {:induction false} FieldValuesBalanced(fields: seq<InputValue>, rng: Rng, pos: nat)
    requires forall i :: 0 <= i < |fields| ==> Generable(fields[i].typ)
    requires forall i :: 0 <= i < |fields| ==> IsName(fields[i].name) && NamesValid(fields[i].typ)
    ensures forall i :: 0 <= i < |fields| ==> Balanced(FieldValues(fields, rng, pos).value[i])
    decreases FieldsSize(fields), 0
  {
    if fields != [] {
      var head := ArgValue(fields[0].typ, rng, pos);
      var prefix := fields[0].name + ": ";
      ArgValueBalanced(fields[0].typ, rng, pos);
      NameNoBrackets(fields[0].name);
      NoBracketsConcat(fields[0].name, ": ");
      NoBracketsBalanced(prefix);
      BalancedConcat(prefix, ShowValue(head.value));
      FieldValuesBalanced(fields[1..], rng, head.next);
    }
  }
}
