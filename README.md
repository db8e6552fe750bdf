# gql-generator-node: the argument engine of `src/utils.js`

This project models the argument-handling core of gql-generator-node, a
generator of GraphQL query documents from a schema, and proves properties
of the model. The core has four parts.

- **Argument-name deduplicator** (`getFieldArgsDict`). It folds over a field's arguments and builds
  an ordered dictionary from variable names to arguments.
  - The synthetic name is `path.join('_') + '_' + field.name + '_' + arg.name`.
  - The fold updates the caller's `duplicateArgCounts` counters in place.
- **Renderers.**
  - `getArgsToVarsStr` gives the argument list of a field selection. Each entry is `name: $key`, or `name: value` when values are generated.
  - `getVarsToTypesStr` gives the variable declarations `$key: Type`.
  - Both join their entries with `, `.
- **Value synthesizer** (`generateArgumentsValues` with its inner
  `createArgumentValueRecursively`). It unwraps a type reference into
  list and required flags.
  - A type that is not required gives `null`.
  - A required input object gives `{ f: v,... }` over its fields.
  - A required enum gives its first value.
  - A required scalar goes through the scalar mock generator, in brackets when the type is a list.
- **Scalar mock generator** (`typeValueGenerators`, `generateScalarValue`).
  - Generators are picked by scalar name: `String`, `Int`, `Boolean`, `Float` and `Any`.
  - A list of a table scalar gives three elements.
  - Any other name falls back to `String`.

Modules follow the parts: `Text` (join, decimal text, bracket balance),
`GraphQLTypes`, `ScalarMocks`, `ArgValues`, `ArgsDict` and `Render`.

## How the model is built

- **Types.**
  - A type reference is a datatype: `Named`, `ListOf` and `NonNull` layers around a named type.
  - The named type is a scalar, an enum with its values, or an input object with its fields.
  - Input objects are trees, so the synthesizer's recursion ends structurally.
- **Random source.** `Math.random` becomes a parameter `rng: nat -> [0,1)` with a cursor `pos`. Every generator returns its value together with the next unused position.
- **Dictionaries.**
  - JavaScript objects become `seq<(string, InputValue)>` in insertion order.
  - `Put` models `o[k] = v`: it replaces a present key in place and appends a new one.
- **Deduplicator specification.**
  - `getFieldArgsDict` is specified by two folds: `CountsAfter` for the counters and `DictAfter` for the dictionary.
  - The method `ArgsDict.GetFieldArgsDict` runs the reduce as a loop over a `DuplicateArgCounts` object whose `counts` map it updates in place.
  - Its postcondition ties the result and the new counters to those folds. Lemmas then state what the folds mean.
- **Unwrap loops.** The method `GraphQLTypes.Unwrap` keeps both loops, including the early `break`.
- **Generator loops.** In the `String` and `List` generators, the `for` loops are kept as methods (`GenerateString`, `GenerateList`). They are proved equal to the functions the synthesizer uses.
- **Type printing.** `TypeText` stands for graphql-js's printing of a type (`[T]`, `T!`).

Some behaviours of the code, stated as the model has them:

- **Required means any non-null layer.** `isRequired` is raised by a
  NonNull layer anywhere in the chain, not only the outermost one. So
  `[String!]` counts as required.
- **`requiredOnly` is never read.** An argument that is not required renders as `name: null` whatever the flag
  says, and `Render.RequiredOnlyIgnored` proves that the flag changes nothing.
  - `test/index.test.js` (lines 158-176) runs `DoWork(name: String!, amount: Int)` twice, in a case named "Generate non-required" with `requiredOnly: false` and in one named "Generate required only" with `requiredOnly: true`.
  - The names suggest that the flag decides whether `amount` gets a value. Given the DoWork dictionary with generated values, `getArgsToVarsStr` renders `amount: null` under either flag (`Render.DoWorkGenerated`). What `generateAll` in `src/index` passes to it is not part of this model.
- **No error for unknown scalars.** A scalar outside the generator table
  falls back to a quoted `String` mock; no error is raised.
- **`String` mocks are single-quoted.** They are `'` + 10 alphanumerics + `'`.
- **`Any` and `Float` are in the table.**
  - `Any` gives `null`, so a required `Any!` still renders `null`.
  - Inside a list, `Any` gives empty elements: `[,,]`.

Behaviours of the deduplicator, proved as stated:

- **Keys can collide.** A counter suffix can produce another argument's synthetic name, and then one argument silently replaces the other (`ArgsDict.SuffixClash`).
- **Root fields and `allArgsDict`.** A root field whose synthetic name is already in `allArgsDict` is keyed by the synthetic name, not the bare name (`ArgsDict.AllArgsCollision`).
- **Variable names are not unique across fields.** The renaming does not keep the keys of different fields or paths apart.
  - Synthetic names of different paths can coincide when a name contains `_`: `path.join('_')` makes `x` of `f` under `a_b` and under `a`, `b` both `a_b_f_x` (`ArgsDict.PathCollision`).
  - The `allArgsDict` branch stores the argument under the very key `allArgsDict` already holds, rather than a fresh one (`ArgsDict.AllArgsKeyReused`).

## Model

| member | source | states |
|---|---|---|
| `GraphQLTypes.Unwrap` | src/utils.js:83-108 | The flag loop and the base loop end (each strips one layer per turn). `isList` holds iff some layer is a list and `isRequired` iff some layer is non-null, despite the early break. The base returned, wrapped in the layers of the input, gives back the input. |
| `GraphQLTypes.WrapUnwrap` | src/utils.js:107-108 | A reference is exactly its wrapper layers around the named type under them, so unwrapping loses nothing. |
| `GraphQLTypes.Wrap` | src/utils.js:86-108 | Wrapping a named type in a list of layers gives a reference whose layers are that list and whose base is that type, for every list. |
| `GraphQLTypes.TypeTextShape` | src/utils.js:184 | The printed form of a reference is its base name plus one character per non-null layer and two per list layer. An outer non-null layer ends it with `!`, and an outer list layer encloses it in `[` and `]`. |
| `GraphQLTypes.TypeTextBalanced` | src/utils.js:184 | The printed form of every type reference has balanced brackets when its base name contains none. |
| `ScalarMocks.RandomChar` | src/utils.js:140 | One draw picks one character of the 62-character alphabet, and that character is a letter or a digit. |
| `ScalarMocks.RandomChars` | src/utils.js:139-141 | `n` draws give exactly `n` characters, each alphanumeric. |
| `ScalarMocks.StringMock` | src/utils.js:136-143 | `String(length)` is a single-quoted run of exactly `length` alphanumerics and uses exactly `length` draws. |
| `ScalarMocks.IntMock` | src/utils.js:146 | `Int()` is a whole number in [0, 999999] and uses one draw. |
| `ScalarMocks.FloatMock` | src/utils.js:151 | `Float()` is a number in [0, 1000000) and uses one draw. |
| `ScalarMocks.Generate` | src/utils.js:134-153 | Each table generator uses its own number of draws: 10 for `String`, 1 for `Int` and `Float`, 0 otherwise. It gives a non-array value whose text has no brackets. `String` gives a quoted 10-character mock, `Int` a number below 1000000, `Boolean` gives `true`, and `Any` gives `null`. |
| `ScalarMocks.GenerateString` | src/utils.js:136-143 | The append loop builds the same quoted string and draw count as `StringMock`. |
| `ScalarMocks.CallGenerator` | src/utils.js:134-153 | Calling the table entry by name gives what `Generate` specifies. |
| `ScalarMocks.Repeat` | src/utils.js:157-160 | `count` successive generator calls give `count` values, and element `i` is the generator's value at the position the first `i` calls leave. The calls use `count` times the per-call draws. |
| `ScalarMocks.ListMock` | src/utils.js:156-161 | `List(name, size)` is an array of exactly `size` values: element `i` is the generator's value after `i` earlier calls. |
| `ScalarMocks.GenerateList` | src/utils.js:156-161 | The push loop builds exactly the array and draw count of `ListMock`. |
| `ScalarMocks.ScalarMock` | src/utils.js:164-176 | The result is an array iff the type is a list and the name has a table entry, and then it has 3 plain elements. A table name in a list gives exactly `List(name, 3)`, and outside a list exactly that table entry's own value. A name outside the table gives exactly the `String` mock, list or not. |
| `ScalarMocks.InheritedNamesFallBack` | src/utils.js:164-176 | The table lookup sees own keys only: `ID`, `DateTime` and names the table inherits from `Object.prototype` (`toString`, `constructor`, `hasOwnProperty`, `valueOf`) have no generator and fall back to the `String` mock, in a list or not. |
| `ScalarMocks.ToTextReadsBack` | src/utils.js:121-124 | The text put down for a scalar value reads back as that value: a number's digits parse to the number, a boolean reads `true` exactly when it holds, a string is put down unchanged and `null` as `null`. |
| `ScalarMocks.ItemTexts` | src/utils.js:168 | Joining an array takes exactly one text per element. |
| `ScalarMocks.ListText` | src/utils.js:156-161 | The text of a generated list is three element texts joined by `,`. The elements come from positions `pos`, `pos+k` and `pos+2k`, where `k` is the generator's draw count. |
| `ScalarMocks.ScalarMockNoBrackets` | src/utils.js:164-176 | No scalar mock text, list or not, contains a bracket or a brace. |
| `ArgValues.ArgValue` | src/utils.js:78-128 | The value is `null` exactly when the type is not required, and then it uses no draw. Draws never go backwards. |
| `ArgValues.ShowValue` | src/utils.js:114 | A value is put down as its literal text, and it reads `null` exactly when it is the null marker or the literal `null`. |
| `ArgValues.FieldValues` | src/utils.js:113-115 | There is one `field: value` entry per declared field, in order, each starting with the field's name and `: `. A field that is not required reads `field: null`. |
| `ArgValues.FieldValueAt` | src/utils.js:113-115 | Entry `i` of an input object is field `i`'s name, `: ` and the text of that field's own synthesized value, drawn at the position where the earlier fields stopped. |
| `ArgValues.InputObjectValue` | src/utils.js:111-116 | A required input object renders as `{ `, then its field entries joined by `,`, then ` }`. |
| `ArgValues.ListFlagIgnoredOutsideScalars` | src/utils.js:111-122 | For input objects and enums, the list flag changes nothing: two types with the same base and the same required flag give the same value. |
| `ArgValues.EnumFirstValue` | src/utils.js:117-118 | A required enum gives its first declared value and uses no draw. |
| `ArgValues.KnownScalarList` | src/utils.js:119-122 | A required list of a table scalar renders as `[`, three consecutive generator outputs joined by `,`, then `]`. |
| `ArgValues.RequiredListScalar` | src/utils.js:119-122 | A required list of a scalar renders as the scalar mock's text between `[` and `]`. |
| `ArgValues.BooleanList` | src/utils.js:148 | A required list of `Boolean` renders `[true,true,true]`. |
| `ArgValues.UnknownScalarList` | src/utils.js:175 | A required list of a scalar outside the table holds a single quoted 10-character mock in brackets. |
| `ArgValues.UnknownScalar` | src/utils.js:171-175 | A required scalar outside the table, not a list, is a quoted 10-character alphanumeric mock that uses 10 draws. |
| `ArgValues.TableScalar` | src/utils.js:171-172 | A required table scalar outside a list is the text of its own generator's value drawn at the current position, and it uses that generator's draw count. |
| `ArgValues.BooleanScalar` | src/utils.js:148 | A required `Boolean` outside a list reads `true` and uses no draw. |
| `ArgValues.StringScalar` | src/utils.js:136-143 | A required `String` outside a list is a single-quoted run of 10 alphanumerics and uses 10 draws. |
| `ArgValues.FloatScalar` | src/utils.js:151 | A required `Float` outside a list is the text of one `Float()` draw, a number in [0, 1000000), and uses one draw. |
| `ArgValues.IntScalar` | src/utils.js:146 | A required `Int` outside a list is a decimal literal, and the number it denotes is below 1000000. |
| `ArgValues.ArgValueBalanced` | src/utils.js:111-125 | Every synthesized value has balanced braces and brackets when field names and enum values are GraphQL names. |
| `ArgValues.FieldValuesBalanced` | src/utils.js:113-115 | Every entry of an input object is balanced under the same condition. |
| `ArgsDict.Put` | src/utils.js:42-53 | `o[k] = v` on an ordered dictionary. A new key is appended and the length grows by one. A present key keeps its slot, only that slot's value changes, and the length stays the same. Keys never move, distinct keys stay distinct, and `k` is present afterwards. |
| `ArgsDict.SyntheticNameParts` | src/utils.js:33 | The synthetic name starts with the joined path and `_`, ends with the argument name, and is exactly as long as its parts and the two separators. For a root field it is `_field_arg`, since the empty path joins to nothing. |
| `ArgsDict.SyntheticNameInjective` | src/utils.js:33 | For one field and one path, two argument names give the same synthetic name only if they are equal. |
| `ArgsDict.KeyForShape` | src/utils.js:35-53 | A counted synthetic name is a proper prefix of the key it gets, and the rest of the key is decimal digits that read back as the counter plus one. An uncounted name gets itself as key, or, only for a root field whose name `allArgsDict` lacks, the bare argument name. |
| `ArgsDict.BumpShape` | src/utils.js:35-49 | Placing an argument adds a counter only for a synthetic name that is counted already or is in `allArgsDict`. That counter becomes its old value plus one, or 1, and every other counter keeps its value. |
| `ArgsDict.KeyMatchesCounter` | src/utils.js:40-42 | The index appended to a counted name's key is the value its counter is raised to. |
| `ArgsDict.FieldArgsDict` | src/utils.js:32-56 | The dictionary the reduce returns never holds a key twice and has at most one entry per argument. Every counter the caller had survives, and none goes down. |
| `ArgsDict.DictKeys` | src/utils.js:32-56 | The dictionary never holds a key twice and never has more entries than the arguments visited. |
| `ArgsDict.DictValues` | src/utils.js:32-56 | Every value in the dictionary is one of the arguments visited. |
| `ArgsDict.CountsFrame` | src/utils.js:35-49 | Counters are only raised or created, never lost, and a counter whose key is not the synthetic name of a visited argument is untouched. |
| `ArgsDict.DuplicateArgCounts.constructor` | src/utils.js:28 | The counter object starts with exactly the caller's seed. |
| `ArgsDict.PlaceArgument` | src/utils.js:32-55 | The reduce callback stores the argument under the key its four branches pick and bumps the caller's counter in place. |
| `ArgsDict.GetFieldArgsDict` | src/utils.js:26-56 | The loop's dictionary and the caller's counters end exactly as the two folds give them. The dictionary has distinct keys and at most one entry per argument. |
| `ArgsDict.CountsDistinct` | src/utils.js:35-49 | With distinct argument names, each name's final counter is one bump of its initial counter, and the key an argument gets is the key the initial counters pick. |
| `ArgsDict.InitialEntries` | src/utils.js:32-56 | The reference listing: argument `j` at position `j` under the key the initial counters pick for it. |
| `ArgsDict.DictDistinct` | src/utils.js:32-56 | When argument names are distinct and the keys picked do not clash, the dictionary is exactly the reference listing, in declaration order. |
| `ArgsDict.NoCollisionKeys` | src/utils.js:50-53 | With distinct names and no collisions there is one entry per argument, in declaration order. A root field keys by bare argument name and a deeper field by synthetic name. The counters come out exactly as they went in. |
| `ArgsDict.NoCollisionCounts` | src/utils.js:50-54 | When no synthetic name has a counter or an `allArgsDict` entry, no turn of the reduce changes any counter. |
| `ArgsDict.CounterCollisionAt` | src/utils.js:35-42 | At argument `i` of any field, when its synthetic name `n` has a counter `c`, the argument is stored under `n` followed by `c+1`, that entry is in the dictionary afterwards, and the counters become the old ones with `n` at `c+1`. |
| `ArgsDict.AllArgsCollisionAt` | src/utils.js:43-49 | At argument `i` of any field, when `n` has no counter but is in `allArgsDict`, the argument is stored under the bare `n`, even at the root, and the counters become the old ones with `n` at 1. |
| `ArgsDict.PlainAt` | src/utils.js:50-54 | At argument `i` of any field, when `n` collides with nothing, the argument is stored under its bare name at the root and under `n` below it, and no counter changes. |
| `ArgsDict.CounterCollision` | src/utils.js:35-42 | For a one-argument field, a synthetic name that has a counter `c` is stored under the name followed by `c+1`. Its counter becomes `c+1`, and no other counter changes. |
| `ArgsDict.AllArgsCollision` | src/utils.js:43-49 | For a one-argument field, a synthetic name that has no counter but is in `allArgsDict` is stored under the bare synthetic name, even at the root. Its counter starts at 1. |
| `ArgsDict.PathCollision` | src/utils.js:33 | `x` of `f` under the path `a_b` and under the path `a`, `b` get the same synthetic name `a_b_f_x`. |
| `ArgsDict.AllArgsKeyReused` | src/utils.js:43-49 | `x` of `f` under `p`, with `p_f_x` already in `allArgsDict`, is keyed `p_f_x` again, and its counter starts at 1. |
| `ArgsDict.SuffixClash` | src/utils.js:40-42 | Take arguments `a` and `a2` of `f` under path `p`, with `p_f_a` at 1. Both land on `p_f_a2`, and the second replaces the first. |
| `Render.GenerateArgumentsValues` | src/utils.js:74-131 | An argument that is not required gives the text `null` and uses no draw. |
| `Render.NullIffNotRequired` | src/utils.js:103-105 | For a base other than an enum or `Any`, the text is `null` iff the argument is not required. |
| `Render.RequiredNotNull` | src/utils.js:111-125 | A required value whose base is neither an enum nor `Any` never reads `null`. |
| `Render.RequiredAnyIsNull` | src/utils.js:153 | A required `Any!` still reads `null`. |
| `Render.ScalarMockNotNull` | src/utils.js:171-175 | A scalar mock outside a list, for any name other than `Any`, never reads `null`. |
| `Render.MapGeneratedArgsToVars` | src/utils.js:69-72 | The entry starts with the argument's name and `: `. It is exactly `name: null` and uses no draw when the argument is not required. |
| `Render.VarReferenceKey` | src/utils.js:66 | A plain entry starts with the argument's name and `: $`, and the rest of it is exactly the key. |
| `Render.Entry` | src/utils.js:64-66 | The map callback gives an entry starting with the argument's name and `: `. Without value generation it is exactly `name: $key` and uses no draw. |
| `Render.ArgEntries` | src/utils.js:63-66 | One entry per dictionary entry. Plain entries use no draws, and draws never go backwards. |
| `Render.EntriesNamed` | src/utils.js:64-66 | Every entry, plain or generated, starts with its argument's name and `: `. |
| `Render.GeneratedEntryAt` | src/utils.js:63-72 | With value generation, entry `i` is argument `i`'s name, `: ` and the text of that argument's own synthesized value, drawn at the position where the earlier entries stopped. |
| `Render.PlainEntries` | src/utils.js:66 | Without value generation, entry `i` is `name: $key` for dictionary entry `i`. |
| `Render.OptionalEntriesNull` | src/utils.js:69-71 | With value generation, every argument that is not required reads `name: null`. |
| `Render.ArgsToVarsStr` | src/utils.js:62-67 | An empty dictionary gives the empty string, and plain rendering uses no draws. |
| `Render.ArgEntriesAppend` | src/utils.js:63-66 | The entries of two dictionaries laid end to end are the entries of the first followed by those of the second. The second's values are drawn where the first stopped. |
| `Render.ArgsToVarsAppend` | src/utils.js:62-67 | The argument list of a concatenation is the two halves joined by `, `, with the draws continuing from the first half. |
| `Render.RequiredOnlyIgnored` | src/utils.js:62-81 | The `requiredOnly` flag changes neither the entries nor the joined string nor the draws. |
| `Render.NothingRequired` | src/utils.js:62-67 | When no argument is required, the generated list is the `name: null` entries joined by `, ` and uses no draws. |
| `Render.NothingRequiredEntries` | src/utils.js:103-105 | When no argument is required, generating the entries uses no draw. |
| `Render.VarDeclarationParts` | src/utils.js:184 | A declaration starts with `$`, the key and `: `, and the rest of it is exactly the printed type. |
| `Render.VarDeclarations` | src/utils.js:183-184 | One `$key: Type` declaration per dictionary entry, in dictionary order. |
| `Render.VarsToTypesStr` | src/utils.js:182-185 | An empty dictionary gives the empty string. |
| `Render.VarDeclarationsAppend` | src/utils.js:183-184 | The declarations of two dictionaries laid end to end are those of the first followed by those of the second. |
| `Render.VarsToTypesAppend` | src/utils.js:182-185 | The declarations of a concatenation are the two halves joined by `, `. |
| `Render.ReferencesMatchDeclarations` | src/utils.js:66 | The plain reference at position `i` passes exactly the variable `$key` that the declaration at position `i` declares. |
| `Render.VarsToTypesBalanced` | src/utils.js:182-185 | The declarations string has balanced brackets when keys and base type names contain none. |
| `Render.GeneratedArgsBalanced` | src/utils.js:62-67 | The generated argument list has balanced braces and brackets when argument names, field names and enum values are GraphQL names. |
| `Render.GeneratedEntriesBalanced` | src/utils.js:69-71 | Each generated entry is balanced under the same condition. |
| `Render.DoWorkDict` | src/utils.js:50-51 | `DoWork(name: String!, amount: Int)` at the root with fresh counters is keyed `name`, `amount`, and no counters are left. |
| `Render.DoWorkVars` | src/utils.js:66 | Its plain argument list is `name: $name, amount: $amount`. |
| `Render.DoWorkTypes` | src/utils.js:184 | Its declarations are `$name: String!, $amount: Int`. |
| `Render.NameEntry` | src/utils.js:69-71 | The `name: String!` entry is `name: ` followed by one String mock, using 10 draws. |
| `Render.AmountEntry` | src/utils.js:103-105 | The `amount: Int` entry is `amount: null` and uses no draw. |
| `Render.DoWorkGenerated` | src/utils.js:62-67 | Its generated argument list is `name: 'XXXXXXXXXX', amount: null` for some 10 alphanumerics, using 10 draws, whatever `requiredOnly` is. |
| `Text.Join` | src/utils.js:67 | Joining no parts gives the empty string, and joining one part gives that part. |
| `Text.JoinAppend` | src/utils.js:67 | Joining a concatenation of two non-empty lists is the two joins glued by the separator. |
| `Text.NatToString` | src/utils.js:124 | The text of a whole number is a non-empty run of digits with no leading zero. |
| `Text.ParseNatToString` | src/utils.js:146 | Reading back the decimal text of a number gives the number. |
| `Text.NatToStringInjective` | src/utils.js:40-42 | Distinct counters give distinct suffixes. |
| `Text.BalancedJoin` | src/utils.js:115 | Balanced parts joined by a separator without brackets stay balanced. |
| `Text.BalancedEnclose` | src/utils.js:112-116 | A balanced text inside `{ `…` }` or `[`…`]` is balanced. |

## Left out

- `moduleConsole` and the two `warn` calls are console output and are left out; the branches they sit in are modelled without them.
- `Math.random` is a parameter `rng` with a draw cursor `pos`. The model says nothing about the distribution.
- ScalarMocks.FloatText: the text of a `Float` mock is modelled as its integer part only, because JavaScript's number-to-string conversion of fractions is floating-point numerics.
- ScalarMocks.Generate: states no fact about the value of `Float` beyond its range in `FloatMock`, for the same reason.
- A scalar named `List` and an enum without values, in a required position, are excluded by the `Generable` precondition. JavaScript would call the `List` entry without a type name or read `values[0]` of an empty array. In a position that is not required the source puts down `null` without looking at the named type, and `Generable` allows any named type there.
- ArgValues.ArgValue, ArgValues.FieldValues: cyclic input types, such as `input F { and: [F!] }`, are not modelled, because input objects are finite trees here. For a required `F!` argument the source recurses without end, since any non-null layer makes a field required, and it overflows the stack on a valid schema.
- The graphql-js object API (`astNode`, `ofType`, `getFields()`, `toString` of a type) becomes datatypes and the printer `TypeText`. A type without an `astNode` is not modelled.
- JavaScript prototype lookups are not modelled: `in` on `duplicateArgCounts` and indexing `allArgsDict` see only own keys here. JavaScript would also see inherited names such as `__proto__`.
- JavaScript's integer-like keys are not modelled, and that is harmless. Such keys (`"0"`) would be listed before other keys, but GraphQL names never start with a digit, so no key here is integer-like.
- `allArgsDict[arg_name]` is a truthiness test. Its entries are argument objects, which are always truthy, so it is modelled as key presence.
- Counters are natural numbers. A caller that seeds `duplicateArgCounts` with strings, which turns `+ 1` into string concatenation, is not modelled.
- The default `allArgsDict = {}` is not modelled. The model has no default: a caller always passes a dictionary, the empty `Dict` `[]` where the source would fall back to `{}`.
- Everything outside `src/utils.js` is not part of this model: the query composer, the depth limit, skeletons, the assembler and the federation adapter.
