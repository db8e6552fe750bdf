/** The part of a GraphQL schema the argument engine reads: a type
    reference is a named type under a chain of list and non-null wrappers,
    and a named type is a scalar, an enum with its declared values, or an
    input object with its declared fields. Input objects are trees here, so
    every walk over them is structural. */
module GraphQLTypes {
  import opened Text

  datatype TypeRef =
    | Named(base: NamedType)
    | ListOf(ofType: TypeRef)
    | NonNull(ofType: TypeRef)

  datatype NamedType =
    | Scalar(name: string)
    | Enum(name: string, values: seq<string>)
    | InputObject(name: string, fields: seq<InputValue>)

  /** A field argument, or a field of an input object: a name and a type. */
  datatype InputValue = InputValue(name: string, typ: TypeRef)

  /** A schema field as the deduplicator sees it: its name and ordered arguments. */
  datatype Field = Field(name: string, args: seq<InputValue>)

  datatype Wrapper = ListWrapper | NonNullWrapper

  /** The wrapper layers of a reference, outermost first. */
  function Wrappers(t: TypeRef): seq<Wrapper>
  {
    match t
    case Named(_) => []
    case ListOf(inner) => [ListWrapper] + Wrappers(inner)
    case NonNull(inner) => [NonNullWrapper] + Wrappers(inner)
  }

  /** The named type under all the wrappers. */
  function BaseOf(t: TypeRef): NamedType
  {
    match t
    case Named(b) => b
    case ListOf(inner) => BaseOf(inner)
    case NonNull(inner) => BaseOf(inner)
  }

  /** Puts the wrapper layers `ws` (outermost first) around `b`. */
  function Wrap(ws: seq<Wrapper>, b: NamedType): (t: TypeRef)
    ensures Wrappers(t) == ws && BaseOf(t) == b
  {
    if ws == [] then Named(b)
    else if ws[0] == ListWrapper then ListOf(Wrap(ws[1..], b))
    else NonNull(Wrap(ws[1..], b))
  }

  /** A reference is exactly its wrapper layers around its base. */
  lemma {:induction false} WrapUnwrap(t: TypeRef)
    ensures Wrap(Wrappers(t), BaseOf(t)) == t
  {
    match t
    case Named(_) =>
    case ListOf(inner) =>
      assert ([ListWrapper] + Wrappers(inner))[1..] == Wrappers(inner);
      WrapUnwrap(inner);
    case NonNull(inner) =>
      assert ([NonNullWrapper] + Wrappers(inner))[1..] == Wrappers(inner);
      WrapUnwrap(inner);
  }

  /** Some layer is a list. */
  predicate IsList(t: TypeRef) { ListWrapper in Wrappers(t) }

  /** Some layer is non-null: this is what the source calls "required". */
  predicate IsRequired(t: TypeRef) { NonNullWrapper in Wrappers(t) }

  /** Strips the wrapper chain of a reference, as the two loops of
      createArgumentValueRecursively do: the first walks the layers and
      raises a flag per kind it meets, stopping early once both are up;
      the second walks down to the named type. */
  method Unwrap(t: TypeRef) returns (isList: bool, isRequired: bool, base: NamedType)
    ensures isList <==> IsList(t)
    ensures isRequired <==> IsRequired(t)
    ensures Wrap(Wrappers(t), base) == t
  {
    isRequired, isList := false, false;
    var astType := t;
    while !astType.Named?
      invariant (isList || IsList(astType)) <==> IsList(t)
      invariant (isRequired || IsRequired(astType)) <==> IsRequired(t)
      decreases astType
    {
      if astType.ListOf? {
        isList := true;
      }
      if astType.NonNull? {
        isRequired := true;
      }
      if isRequired && isList {
        break;
      }
      astType := astType.ofType;
    }
    var typ := t;
    while !typ.Named?
      invariant BaseOf(typ) == BaseOf(t)
      decreases typ
    {
      typ := typ.ofType;
    }
    base := typ.base;
    WrapUnwrap(t);
  }

  /** The printed form of a reference (graphql-js's `toString` of a type):
      `[T]` for a list, `T!` for non-null. */
  function TypeText(t: TypeRef): string
  {
    match t
    case Named(b) => b.name
    case ListOf(inner) => "[" + TypeText(inner) + "]"
    case NonNull(inner) => TypeText(inner) + "!"
  }

  /** A printed type is its base name with one character per non-null
      layer and two per list layer; an outer non-null layer ends it with
      `!` and an outer list layer encloses it in brackets. */
  lemma {:induction false} TypeTextShape(t: TypeRef)
    ensures var r := TypeText(t);
      |r| == |BaseOf(t).name| + |Wrappers(t)| + multiset(Wrappers(t))[ListWrapper]
    ensures t.NonNull? ==> TypeText(t)[|TypeText(t)| - 1] == '!'
    ensures t.ListOf? ==> TypeText(t)[0] == '[' && TypeText(t)[|TypeText(t)| - 1] == ']'
  {
    match t
    case Named(_) =>
    case ListOf(inner) => TypeTextShape(inner);
    case NonNull(inner) => TypeTextShape(inner);
  }

  /** A printed type is balanced whenever its base name has no brackets. */
  lemma {:induction false} TypeTextBalanced(t: TypeRef)
    requires NoBrackets(BaseOf(t).name)
    ensures Balanced(TypeText(t))
  {
    match t
    case Named(b) =>
      NoBracketsBalanced(b.name);
    case ListOf(inner) =>
      TypeTextBalanced(inner);
      BalancedEnclose("[", TypeText(inner), "]");
    case NonNull(inner) =>
      TypeTextBalanced(inner);
      NoBracketsBalanced("!");
      BalancedConcat(TypeText(inner), "!");
  }

  // ---------------------------------------------------------------------
  // Sizes, for the termination of the value synthesizer.

  function Size(t: TypeRef): nat
  {
    match t
    case Named(b) => NamedSize(b)
    case ListOf(inner) => 1 + Size(inner)
    case NonNull(inner) => 1 + Size(inner)
  }

  function NamedSize(b: NamedType): nat
  {
    match b
    case InputObject(_, fields) => 1 + FieldsSize(fields)
    case _ => 1
  }

  function FieldsSize(fields: seq<InputValue>): nat
  {
    if fields == [] then 0 else 1 + Size(fields[0].typ) + FieldsSize(fields[1..])
  }

  lemma {:induction false} BaseSize(t: TypeRef)
    ensures NamedSize(BaseOf(t)) <= Size(t)
  {
    match t
    case Named(_) =>
    case ListOf(inner) => BaseSize(inner);
    case NonNull(inner) => BaseSize(inner);
  }

  // ---------------------------------------------------------------------
  // What the synthesizer needs of a schema to run without a JavaScript
  // exception: every enum it reaches has a first value (`values[0]`), and
  // no scalar it reaches is called `List`, the one table entry that cannot
  // be called without a type name. It reaches the named type of a
  // reference only when the reference is required: for any other it puts
  // down `null` without looking further.

  predicate Generable(t: TypeRef)
  {
    GenerableBelow(t, false)
  }

  /** `Generable` for the layers below a point where `required` says
      whether a non-null layer has been passed. */
  predicate GenerableBelow(t: TypeRef, required: bool)
  {
    match t
    case Named(b) => required ==> GenerableNamed(b)
    case ListOf(inner) => GenerableBelow(inner, required)
    case NonNull(inner) => GenerableBelow(inner, true)
  }

  predicate GenerableNamed(b: NamedType)
  {
    match b
    case Scalar(name) => name != "List"
    case Enum(_, values) => |values| > 0
    case InputObject(_, fields) => forall i :: 0 <= i < |fields| ==> Generable(fields[i].typ)
  }

  lemma GenerableBase(t: TypeRef)
    requires Generable(t) && IsRequired(t)
    ensures GenerableNamed(BaseOf(t))
  {
    GenerableBelowBase(t, false);
  }

  lemma {:induction false} GenerableBelowBase(t: TypeRef, required: bool)
    requires GenerableBelow(t, required) && (required || IsRequired(t))
    ensures GenerableNamed(BaseOf(t))
  {
    match t
    case Named(_) =>
    case ListOf(inner) => GenerableBelowBase(inner, required);
    case NonNull(inner) => GenerableBelowBase(inner, true);
  }

  // ---------------------------------------------------------------------
  // GraphQL names: /[_A-Za-z][_0-9A-Za-z]*/.

  predicate IsNameStart(c: char) { c == '_' || ('A' <= c <= 'Z') || ('a' <= c <= 'z') }
  predicate IsNameChar(c: char) { IsNameStart(c) || IsDigit(c) }

  predicate IsName(s: string)
  {
    |s| > 0 && IsNameStart(s[0]) && forall i :: 0 < i < |s| ==> IsNameChar(s[i])
  }

  lemma NameNoBrackets(s: string)
    requires IsName(s)
    ensures NoBrackets(s)
  {
  }

  /** Every input-object field name and every enum value below `t` is a GraphQL name. */
  predicate NamesValid(t: TypeRef)
  {
    match t
    case Named(b) => NamesValidNamed(b)
    case ListOf(inner) => NamesValid(inner)
    case NonNull(inner) => NamesValid(inner)
  }

  predicate NamesValidNamed(b: NamedType)
  {
    match b
    case Scalar(_) => true
    case Enum(_, values) => forall i :: 0 <= i < |values| ==> IsName(values[i])
    case InputObject(_, fields) =>
      forall i :: 0 <= i < |fields| ==> IsName(fields[i].name) && NamesValid(fields[i].typ)
  }

  lemma {:induction false} NamesValidBase(t: TypeRef)
    requires NamesValid(t)
    ensures NamesValidNamed(BaseOf(t))
  {
    match t
    case Named(_) =>
    case ListOf(inner) => NamesValidBase(inner);
    case NonNull(inner) => NamesValidBase(inner);
  }
}
