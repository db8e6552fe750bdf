/** The scalar mock generator: a table of generators keyed by scalar name
    (`String`, `Int`, `Boolean`, `Float`, `Any`, and `List`, which repeats
    another entry), and the dispatch that picks one for a named scalar.

    Randomness is a parameter. `rng(p)` is the value the p-th call of
    `Math.random()` would return, a real in [0, 1); each generator takes a
    position and gives back the position after its last draw, so that a
    sequence of generator calls consumes the source left to right. */
module ScalarMocks {
  import opened Text

  type UnitInterval = r: real | 0.0 <= r < 1.0

  type Rng = nat -> UnitInterval

  /** The numbers `Float()` can give: a draw times 1000000 is never negative. */
  type NonNegReal = r: real | 0.0 <= r

  predicate IsAlnum(c: char) { ('A' <= c <= 'Z') || ('a' <= c <= 'z') || IsDigit(c) }

  /** The `n` consecutive characters starting at `first`. */
  function CharRange(first: char, n: nat): (s: string)
    requires first as int + n <= 0xD800
    ensures |s| == n
    ensures forall i :: 0 <= i < n ==> s[i] as int == first as int + i
  {
    if n == 0 then [] else CharRange(first, n - 1) + [(first as int + n - 1) as char]
  }

  /** The 62-character alphabet of the String generator: `A`..`Z`, then
      `a`..`z`, then `0`..`9`. */
  const Alphabet: string := CharRange('A', 26) + CharRange('a', 26) + CharRange('0', 10)

  lemma InCharRange(first: char, n: nat, c: char)
    requires first as int + n <= 0xD800
    ensures c in CharRange(first, n) <==> first as int <= c as int < first as int + n
  {
    var s := CharRange(first, n);
    if first as int <= c as int < first as int + n {
      assert s[c as int - first as int] == c;
    }
  }

  /** The alphabet holds exactly the ASCII letters and digits. */
  lemma AlphabetAlnum(c: char)
    ensures c in Alphabet <==> IsAlnum(c)
  {
    InCharRange('A', 26, c);
    InCharRange('a', 26, c);
    InCharRange('0', 10, c);
    assert c in Alphabet <==> c in CharRange('A', 26) || c in CharRange('a', 26) || c in CharRange('0', 10);
  }

  /** Default length of a generated string. */
  const DefaultLength: nat := 10

  /** Default number of elements of a generated list. */
  const ListSize: nat := 3

  /** Integers are drawn from [0, IntBound). */
  const IntBound: nat := 1000000

  /** The JavaScript values the generators return. */
  datatype JsValue =
    | JsString(s: string)
    | JsNumber(n: nat)
    | JsFloat(x: NonNegReal)
    | JsBool(b: bool)
    | JsNull
    | JsArray(items: seq<JsValue>)

  /** A generated value and the position of the next unused random draw. */
  datatype Drawn<T> = Drawn(value: T, next: nat)

  // ---------------------------------------------------------------------
  // Generators

  /** `chars.charAt(Math.floor(r * chars.length))`. */
  function RandomChar(r: UnitInterval): (c: char)
    ensures c in Alphabet && IsAlnum(c)
  {
    var c := Alphabet[(r * 62.0).Floor];
    AlphabetAlnum(c);
    c
  }

  /** The characters the String generator's loop appends, one per draw. */
  function RandomChars(rng: Rng, pos: nat, n: nat): (s: string)
    ensures |s| == n
    ensures forall i :: 0 <= i < n ==> IsAlnum(s[i])
  {
    if n == 0 then "" else RandomChars(rng, pos, n - 1) + [RandomChar(rng(pos + n - 1))]
  }

  /** A single-quoted run of `length` alphanumeric characters. */
  predicate IsQuotedAlnum(s: string, length: nat)
  {
    |s| == length + 2 && s[0] == '\'' && s[length + 1] == '\'' &&
    forall i :: 1 <= i <= length ==> IsAlnum(s[i])
  }

  /** `String(length)`. */
  function StringMock(rng: Rng, pos: nat, length: nat): (d: Drawn<JsValue>)
    ensures d.value.JsString? && IsQuotedAlnum(d.value.s, length)
    ensures d.next == pos + length
  {
    var s := "'" + RandomChars(rng, pos, length) + "'";
    assert forall i :: 1 <= i <= length ==> s[i] == RandomChars(rng, pos, length)[i - 1];
    Drawn(JsString(s), pos + length)
  }

  /** `Int()`: `Math.floor(r * 1000000)`. */
  function IntMock(rng: Rng, pos: nat): (d: Drawn<JsValue>)
    ensures d.value.JsNumber? && 0 <= d.value.n < IntBound
    ensures d.next == pos + 1
  {
    Drawn(JsNumber((rng(pos) * 1000000.0).Floor), pos + 1)
  }

  /** `Float()`: `r * 1000000`. */
  function FloatMock(rng: Rng, pos: nat): (d: Drawn<JsValue>)
    ensures d.value.JsFloat? && 0.0 <= d.value.x < IntBound as real
    ensures d.next == pos + 1
  {
    Drawn(JsFloat(rng(pos) * 1000000.0), pos + 1)
  }

  /** The own keys of the generator table, `List` included. */
  predicate HasOwnGenerator(name: string)
  {
    name in {"String", "Int", "Boolean", "Float", "Any", "List"}
  }

  /** The lookup is `hasOwnProperty`, not `in`: names the table only
      inherits from `Object.prototype`, like scalar names outside the
      table, fall back to a String mock in or out of a list. */
  lemma InheritedNamesFallBack(name: string, isList: bool, rng: Rng, pos: nat)
    requires name in {"ID", "DateTime", "toString", "constructor", "hasOwnProperty", "valueOf"}
    ensures !HasOwnGenerator(name)
    ensures ScalarMock(name, isList, rng, pos) == StringMock(rng, pos, DefaultLength)
  {
  }

  /** The table entries that generate one value. */
  predicate IsValueGenerator(name: string)
  {
    HasOwnGenerator(name) && name != "List"
  }

  /** How many random draws one call of a value generator consumes. */
  function Draws(name: string): nat
  {
    if name == "String" then DefaultLength
    else if name == "Int" || name == "Float" then 1
    else 0
  }

  /** A value that is not an array and whose text has no brackets. */
  predicate IsPlain(v: JsValue)
  {
    !v.JsArray? && (v.JsString? ==> NoBrackets(v.s))
  }

  /** `typeValueGenerators[name]()` for a value generator. */
  function Generate(name: string, rng: Rng, pos: nat): (d: Drawn<JsValue>)
    requires IsValueGenerator(name)
    ensures d.next == pos + Draws(name)
    ensures IsPlain(d.value)
    ensures name == "String" ==> d.value.JsString? && IsQuotedAlnum(d.value.s, DefaultLength)
    ensures name == "Int" ==> d.value.JsNumber? && d.value.n < IntBound
    ensures name == "Boolean" ==> d.value == JsBool(true)
    ensures name == "Any" ==> d.value == JsNull
  {
    if name == "String" then
      var d := StringMock(rng, pos, DefaultLength);
      QuotedAlnumNoBrackets(d.value.s, DefaultLength);
      d
    else if name == "Int" then IntMock(rng, pos)
    else if name == "Boolean" then Drawn(JsBool(true), pos)
    else if name == "Float" then FloatMock(rng, pos)
    else Drawn(JsNull, pos)
  }

  /** `count` successive calls of one value generator. Element `i` is the
      generator's value at the position where the earlier `i` calls left off. */
  function Repeat(name: string, rng: Rng, pos: nat, count: nat): (d: Drawn<seq<JsValue>>)
    requires IsValueGenerator(name)
    ensures |d.value| == count
    ensures d.next == pos + count * Draws(name)
    ensures forall i :: 0 <= i < count ==> d.value[i] == Generate(name, rng, pos + i * Draws(name)).value
  {
    if count == 0 then Drawn([], pos)
    else
      var prev := Repeat(name, rng, pos, count - 1);
      var g := Generate(name, rng, prev.next);
      MulStep(count, Draws(name));
      RepeatExtend(name, rng, pos, prev.value, g.value);
      Drawn(prev.value + [g.value], g.next)
  }

  /** One more call appended to the values of the earlier calls. */
  lemma RepeatExtend(name: string, rng: Rng, pos: nat, prev: seq<JsValue>, last: JsValue)
    requires IsValueGenerator(name)
    requires forall i :: 0 <= i < |prev| ==> prev[i] == Generate(name, rng, pos + i * Draws(name)).value
    requires last == Generate(name, rng, pos + |prev| * Draws(name)).value
    ensures forall i :: 0 <= i < |prev| + 1 ==> (prev + [last])[i] == Generate(name, rng, pos + i * Draws(name)).value
  {
    forall i | 0 <= i < |prev| + 1
      ensures (prev + [last])[i] == Generate(name, rng, pos + i * Draws(name)).value
    {
      if i < |prev| {
        assert (prev + [last])[i] == prev[i];
      }
    }
  }

  // A step of its caller's proof, kept apart so that proof stays cheap.
  lemma MulStep(c: nat, k: nat)
    requires c > 0
    ensures (c - 1) * k + k == c * k
  {
  }

  /** `List(name, size)`: an array of `size` generated values. */
  function ListMock(name: string, rng: Rng, pos: nat, size: nat): (d: Drawn<JsValue>)
    requires IsValueGenerator(name)
    ensures d.value.JsArray? && |d.value.items| == size
    ensures forall i :: 0 <= i < size ==> d.value.items[i] == Generate(name, rng, pos + i * Draws(name)).value
    ensures d.next == pos + size * Draws(name)
  {
    var r := Repeat(name, rng, pos, size);
    Drawn(JsArray(r.value), r.next)
  }

  /** `generateScalarValue(type, isList)`: a list of a table scalar is a
      3-element array; a table scalar is its generator's value; any other
      name falls back to the String generator, list or not. */
  function ScalarMock(name: string, isList: bool, rng: Rng, pos: nat): (d: Drawn<JsValue>)
    requires name != "List"
    ensures d.value.JsArray? <==> isList && HasOwnGenerator(name)
    ensures d.value.JsArray? ==> |d.value.items| == ListSize
    ensures d.value.JsArray? ==> forall i :: 0 <= i < ListSize ==> IsPlain(d.value.items[i])
    ensures !HasOwnGenerator(name) ==> d == StringMock(rng, pos, DefaultLength)
    ensures !isList && HasOwnGenerator(name) ==> d == Generate(name, rng, pos)
    ensures isList && HasOwnGenerator(name) ==> d == ListMock(name, rng, pos, ListSize)
    ensures d.next >= pos
  {
    if isList && HasOwnGenerator(name) then ListMock(name, rng, pos, ListSize)
    else if HasOwnGenerator(name) then Generate(name, rng, pos)
    else StringMock(rng, pos, DefaultLength)
  }

  // ---------------------------------------------------------------------
  // Coercion to text, as `_value += v` performs it.

  /** JavaScript's `String(v)`. */
  function ToText(v: JsValue): string
    decreases v
  {
    match v
    case JsString(s) => s
    case JsNumber(n) => NatToString(n)
    case JsFloat(x) => FloatText(x)
    case JsBool(b) => if b then "true" else "false"
    case JsNull => "null"
    case JsArray(items) => Join(",", ItemTexts(items))
  }

  /** The text of a scalar value reads back as that value: a number's
      decimal digits parse to the number, a boolean is `true` exactly when
      it holds, a string is put down as it is and `null` as `null`. */
  lemma ToTextReadsBack(v: JsValue)
    ensures v.JsNumber? ==> AllDigits(ToText(v)) && ParseNat(ToText(v)) == v.n
    ensures v.JsBool? ==> (ToText(v) == "true" <==> v.b)
    ensures v.JsString? ==> ToText(v) == v.s
    ensures v.JsNull? ==> ToText(v) == "null"
  {
    if v.JsNumber? {
      ParseNatToString(v.n);
    }
  }

  /** The element texts `Array.prototype.join` uses: `null` becomes empty. */
  function ItemTexts(items: seq<JsValue>): (r: seq<string>)
    ensures |r| == |items|
    decreases items
  {
    if items == [] then []
    else [if items[0].JsNull? then "" else ToText(items[0])] + ItemTexts(items[1..])
  }

  /** The text of a generated float: its integer part in decimal. */
  function FloatText(x: NonNegReal): (s: string)
    ensures NoBrackets(s)
  {
    NatToString(x.Floor)
  }

  lemma QuotedAlnumNoBrackets(s: string, length: nat)
    requires IsQuotedAlnum(s, length)
    ensures NoBrackets(s)
  {
    forall i | 0 <= i < |s|
      ensures !IsOpener(s[i]) && !IsCloser(s[i])
    {
      if 1 <= i <= length {
        assert IsAlnum(s[i]);
      }
    }
  }

  lemma DigitsNoBrackets(s: string)
    requires AllDigits(s)
    ensures NoBrackets(s)
  {
  }

  lemma PlainNoBrackets(v: JsValue)
    requires IsPlain(v)
    ensures NoBrackets(ToText(v))
  {
    match v
    case JsNumber(n) => DigitsNoBrackets(NatToString(n));
    case _ =>
  }

  lemma {:induction false} ItemTextsNoBrackets(items: seq<JsValue>)
    requires forall i :: 0 <= i < |items| ==> IsPlain(items[i])
    ensures forall i :: 0 <= i < |items| ==> NoBrackets(ItemTexts(items)[i])
  {
    if items != [] {
      PlainNoBrackets(items[0]);
      ItemTextsNoBrackets(items[1..]);
      assert forall i :: 1 <= i < |items| ==> ItemTexts(items)[i] == ItemTexts(items[1..])[i - 1];
    }
  }

  /** No scalar mock, list or not, contains a bracket character. */
  lemma ScalarMockNoBrackets(name: string, isList: bool, rng: Rng, pos: nat)
    requires name != "List"
    ensures NoBrackets(ToText(ScalarMock(name, isList, rng, pos).value))
  {
    var v := ScalarMock(name, isList, rng, pos).value;
    if v.JsArray? {
      ItemTextsNoBrackets(v.items);
      NoBracketsJoin(",", ItemTexts(v.items));
    } else if HasOwnGenerator(name) {
      PlainNoBrackets(v);
    } else {
      QuotedAlnumNoBrackets(v.s, DefaultLength);
    }
  }

  /** The text of the value generator `name` at draw position `p`, as an array element. */
  function ElementText(name: string, rng: Rng, p: nat): string
    requires IsValueGenerator(name)
  {
    var v := Generate(name, rng, p).value;
    if v.JsNull? then "" else ToText(v)
  }

  lemma {:induction false} ItemTextsAt(items: seq<JsValue>)
    ensures forall i :: 0 <= i < |items| ==>
      ItemTexts(items)[i] == if items[i].JsNull? then "" else ToText(items[i])
  {
    if items != [] {
      ItemTextsAt(items[1..]);
      assert forall i :: 1 <= i < |items| ==> ItemTexts(items)[i] == ItemTexts(items[1..])[i - 1];
    }
  }

  /** The text of a generated list: three element texts joined by `,`. */
  lemma ListText(name: string, rng: Rng, pos: nat)
    requires IsValueGenerator(name)
    ensures var k := Draws(name);
      ToText(ListMock(name, rng, pos, ListSize).value) ==
        ElementText(name, rng, pos) + "," + ElementText(name, rng, pos + k) + "," + ElementText(name, rng, pos + 2 * k)
  {
    var k := Draws(name);
    var items := ListMock(name, rng, pos, ListSize).value.items;
    var texts := ItemTexts(items);
    ItemTextsAt(items);
    assert texts[0] == ElementText(name, rng, pos);
    assert texts[1] == ElementText(name, rng, pos + k);
    assert texts[2] == ElementText(name, rng, pos + 2 * k);
    assert texts[1..] == [texts[1], texts[2]];
    assert texts[1..][1..] == [texts[2]];
    assert Join(",", texts[1..]) == texts[1] + "," + texts[2];
  }

  // ---------------------------------------------------------------------
  // The loops of the generator table.

  /** `String(length)`: appends one random alphabet character per iteration
      and quotes the result. */
  method GenerateString(rng: Rng, pos: nat, length: nat := DefaultLength) returns (value: JsValue, next: nat)
    ensures Drawn(value, next) == StringMock(rng, pos, length)
  {
    var result := "";
    for i := 0 to length
      invariant result == RandomChars(rng, pos, i)
    {
      var c := RandomChar(rng(pos + i));
      result := result + [c];
      assert result == RandomChars(rng, pos, i + 1);
    }
    value := JsString("'" + result + "'");
    next := pos + length;
  }

  /** `typeValueGenerators[name]()` for a value generator. */
  method CallGenerator(name: string, rng: Rng, pos: nat) returns (value: JsValue, next: nat)
    requires IsValueGenerator(name)
    ensures Drawn(value, next) == Generate(name, rng, pos)
  {
    if name == "String" {
      value, next := GenerateString(rng, pos);
    } else if name == "Int" {
      value, next := JsNumber((rng(pos) * 1000000.0).Floor), pos + 1;
    } else if name == "Boolean" {
      value, next := JsBool(true), pos;
    } else if name == "Float" {
      value, next := JsFloat(rng(pos) * 1000000.0), pos + 1;
    } else {
      value, next := JsNull, pos;
    }
  }

  /** `List(name, size)`: pushes one generated value per iteration. */
  method GenerateList(name: string, rng: Rng, pos: nat, size: nat := ListSize) returns (value: JsValue, next: nat)
    requires IsValueGenerator(name)
    ensures Drawn(value, next) == ListMock(name, rng, pos, size)
  {
    var list: seq<JsValue> := [];
    next := pos;
    for i := 0 to size
      invariant Drawn(list, next) == Repeat(name, rng, pos, i)
    {
      var v;
      v, next := CallGenerator(name, rng, next);
      list := list + [v];
    }
    value := JsArray(list);
  }
}
