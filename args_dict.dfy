/** The argument-name deduplicator, `getFieldArgsDict`: for each argument
    of a field, in declaration order, it picks a variable name and records
    the argument under it. The synthetic name is the field's path joined by
    `_`, then `_`, the field name, `_` and the argument name. A synthetic
    name that already has a counter is suffixed with the bumped counter; one
    already present in `allArgsDict` gets a counter of 1 and stays bare; a
    root field (empty path) otherwise keys by the bare argument name. */
module ArgsDict {
  import opened Text
  import opened GraphQLTypes

  /** An argument dictionary: entries in insertion order, as a JavaScript
      object keeps its (non-integer) keys. */
  type Dict = seq<(string, InputValue)>

  /** Where `k` sits in `d`: the first entry with that key, or `|d|` when there is none. */
  function IndexOf(d: Dict, k: string): (i: nat)
    ensures i <= |d|
    ensures i < |d| ==> d[i].0 == k
    ensures forall j :: 0 <= j < i ==> d[j].0 != k
  {
    if d == [] then 0 else if d[0].0 == k then 0 else 1 + IndexOf(d[1..], k)
  }

  /** No entry with key `k` comes before `IndexOf(d, k)`. */
  lemma {:induction false} IndexOfFirst(d: Dict, k: string, j: nat)
    requires j < |d| && d[j].0 == k
    ensures IndexOf(d, k) <= j
  {
    if d[0].0 != k {
      IndexOfFirst(d[1..], k, j - 1);
    }
  }

  /** `k in d` */
  predicate HasKey(d: Dict, k: string)
  {
    IndexOf(d, k) < |d|
  }

  predicate DistinctKeys(d: Dict)
  {
    forall i, j :: 0 <= i < j < |d| ==> d[i].0 != d[j].0
  }

  /** `o[k] = v`: a present key keeps its place and takes the new value, a new key goes last. */
  function Put(d: Dict, k: string, v: InputValue): (r: Dict)
    ensures !HasKey(d, k) ==> r == d + [(k, v)]
    ensures |r| == if HasKey(d, k) then |d| else |d| + 1
    ensures HasKey(d, k) ==> r[IndexOf(d, k)] == (k, v)
    ensures HasKey(d, k) ==> forall i :: 0 <= i < |d| && i != IndexOf(d, k) ==> r[i] == d[i]
    ensures forall i :: 0 <= i < |d| ==> r[i].0 == d[i].0
    ensures DistinctKeys(d) ==> DistinctKeys(r)
    ensures HasKey(r, k)
  {
    var i := IndexOf(d, k);
    if i < |d| then d[i := (k, v)]
    else
      var r := d + [(k, v)];
      IndexOfFirst(r, k, |d|);
      r
  }

  /** After `o[k] = v` the entry `(k, v)` is in the dictionary. */
  lemma PutHolds(d: Dict, k: string, v: InputValue)
    ensures (k, v) in Put(d, k, v)
  {
    if HasKey(d, k) {
      assert Put(d, k, v)[IndexOf(d, k)] == (k, v);
    }
  }

  /** `${path.join('_')}_${field.name}_${arg.name}` */
  function SyntheticName(path: seq<string>, fieldName: string, argName: string): string
  {
    Join("_", path) + "_" + fieldName + "_" + argName
  }

  /** The synthetic name starts with the joined path and `_` and ends with
      the argument name; a root field's starts with `_`, since an empty
      path joins to nothing. */
  lemma SyntheticNameParts(path: seq<string>, fieldName: string, argName: string)
    ensures var r := SyntheticName(path, fieldName, argName);
      |r| == |Join("_", path)| + |fieldName| + |argName| + 2 &&
      Join("_", path) + "_" <= r && r[|r| - |argName|..] == argName
    ensures |path| == 0 ==> SyntheticName(path, fieldName, argName) == "_" + fieldName + "_" + argName
  {
  }

  /** Two arguments of one field at one path share a synthetic name only
      when they share a name. */
  lemma SyntheticNameInjective(path: seq<string>, fieldName: string, a: string, b: string)
    requires SyntheticName(path, fieldName, a) == SyntheticName(path, fieldName, b)
    ensures a == b
  {
    var p := Join("_", path) + "_" + fieldName + "_";
    assert SyntheticName(path, fieldName, a) == p + a;
    assert SyntheticName(path, fieldName, b) == p + b;
    assert (p + a)[|p|..] == a;
    assert (p + b)[|p|..] == b;
  }

  /** The dictionary built so far and the counters as they now stand. */
  datatype Outcome = Outcome(dict: Dict, counts: map<string, nat>)

  /** The key the source picks for `arg` given the current counters. */
  function KeyFor(counts: map<string, nat>, allArgs: Dict, path: seq<string>, fieldName: string, arg: InputValue): string
  {
    var n := SyntheticName(path, fieldName, arg.name);
    if n in counts then n + NatToString(counts[n] + 1)
    else if HasKey(allArgs, n) then n
    else if |path| == 0 then arg.name
    else n
  }

  /** The counters after `arg` is placed: its synthetic name's counter is
      bumped, or started at 1 when the name is only in `allArgs`. */
  function Bump(counts: map<string, nat>, allArgs: Dict, n: string): map<string, nat>
  {
    if n in counts then counts[n := counts[n] + 1]
    else if HasKey(allArgs, n) then counts[n := 1]
    else counts
  }

  /** What the key says: a counted synthetic name is a proper prefix of its
      key, and the rest of the key reads back as the raised counter;
      otherwise the key is the synthetic name itself, or, for a root field
      whose name `allArgsDict` lacks, the bare argument name. */
  lemma KeyForShape(counts: map<string, nat>, allArgs: Dict, path: seq<string>, fieldName: string, arg: InputValue)
    ensures var n, k := SyntheticName(path, fieldName, arg.name), KeyFor(counts, allArgs, path, fieldName, arg);
      n in counts ==> n < k && AllDigits(k[|n|..]) && ParseNat(k[|n|..]) == counts[n] + 1
    ensures var n, k := SyntheticName(path, fieldName, arg.name), KeyFor(counts, allArgs, path, fieldName, arg);
      n !in counts ==> k == n || (|path| == 0 && !HasKey(allArgs, n) && k == arg.name)
  {
    var n := SyntheticName(path, fieldName, arg.name);
    if n in counts {
      var k := KeyFor(counts, allArgs, path, fieldName, arg);
      assert k[|n|..] == NatToString(counts[n] + 1);
      ParseNatToString(counts[n] + 1);
    }
  }

  /** Placing an argument creates a counter only for a synthetic name that
      is counted already or is a key of `allArgsDict`, raises that counter
      by one from its old value (or from 0), and leaves every other
      counter as it was. */
  lemma BumpShape(counts: map<string, nat>, allArgs: Dict, n: string)
    ensures var r := Bump(counts, allArgs, n);
      r.Keys == if n in counts || HasKey(allArgs, n) then counts.Keys + {n} else counts.Keys
    ensures var r := Bump(counts, allArgs, n);
      n in r ==> r[n] == (if n in counts then counts[n] else 0) + 1
    ensures forall k :: k in counts && k != n ==> Bump(counts, allArgs, n)[k] == counts[k]
  {
  }

  /** The index a counted name gets in its key is the value its counter is
      raised to: the same `index` is stored and appended. */
  lemma KeyMatchesCounter(counts: map<string, nat>, allArgs: Dict, path: seq<string>, fieldName: string, arg: InputValue)
    requires SyntheticName(path, fieldName, arg.name) in counts
    ensures var n := SyntheticName(path, fieldName, arg.name);
      KeyFor(counts, allArgs, path, fieldName, arg) == n + NatToString(Bump(counts, allArgs, n)[n])
  {
  }

  /** The synthetic names of the first `i` arguments. */
  function NamesOf(field: Field, path: seq<string>, i: nat): seq<string>
    requires i <= |field.args|
  {
    seq(i, j requires 0 <= j < i => SyntheticName(path, field.name, field.args[j].name))
  }

  /** The counters after the reduce has visited the first `i` arguments. */
  function CountsAfter(field: Field, counts0: map<string, nat>, allArgs: Dict, path: seq<string>, i: nat): map<string, nat>
    requires i <= |field.args|
  {
    if i == 0 then counts0
    else Bump(CountsAfter(field, counts0, allArgs, path, i - 1), allArgs, SyntheticName(path, field.name, field.args[i - 1].name))
  }

  /** The dictionary after the reduce has visited the first `i` arguments:
      each argument goes under the key the counters so far pick for it. */
  function DictAfter(field: Field, counts0: map<string, nat>, allArgs: Dict, path: seq<string>, i: nat): Dict
    requires i <= |field.args|
  {
    if i == 0 then []
    else
      var arg := field.args[i - 1];
      Put(DictAfter(field, counts0, allArgs, path, i - 1),
          KeyFor(CountsAfter(field, counts0, allArgs, path, i - 1), allArgs, path, field.name, arg), arg)
  }

  /** `getFieldArgsDict(field, duplicateArgCounts, allArgsDict, path)`:
      the dictionary it returns and the counters it leaves behind. */
  function FieldArgsDict(field: Field, counts: map<string, nat>, allArgs: Dict, path: seq<string>): (r: Outcome)
    ensures DistinctKeys(r.dict) && |r.dict| <= |field.args|
    ensures forall k :: k in counts ==> k in r.counts && counts[k] <= r.counts[k]
  {
    DictKeys(field, counts, allArgs, path, |field.args|);
    CountsFrame(field, counts, allArgs, path, |field.args|);
    Outcome(DictAfter(field, counts, allArgs, path, |field.args|), CountsAfter(field, counts, allArgs, path, |field.args|))
  }

  /** One more turn of the reduce. */
  lemma AfterStep(field: Field, counts0: map<string, nat>, allArgs: Dict, path: seq<string>, i: nat)
    requires i < |field.args|
    ensures var counts, arg := CountsAfter(field, counts0, allArgs, path, i), field.args[i];
      DictAfter(field, counts0, allArgs, path, i + 1) ==
        Put(DictAfter(field, counts0, allArgs, path, i), KeyFor(counts, allArgs, path, field.name, arg), arg) &&
      CountsAfter(field, counts0, allArgs, path, i + 1) ==
        Bump(counts, allArgs, SyntheticName(path, field.name, arg.name))
  {
  }

  /** Two counter maps say the same about key `k`. */
  predicate AgreesAt(m1: map<string, nat>, m2: map<string, nat>, k: string)
  {
    (k in m1 <==> k in m2) && (k in m1 ==> m1[k] == m2[k])
  }

  /** The dictionary has one key per entry and at most one entry per argument visited. */
  lemma {:induction false} DictKeys(field: Field, counts0: map<string, nat>, allArgs: Dict, path: seq<string>, i: nat)
    requires i <= |field.args|
    ensures DistinctKeys(DictAfter(field, counts0, allArgs, path, i))
    ensures |DictAfter(field, counts0, allArgs, path, i)| <= i
  {
    if i > 0 {
      DictKeys(field, counts0, allArgs, path, i - 1);
    }
  }

  /** The dictionary holds only arguments already visited. */
  lemma {:induction false} DictValues(field: Field, counts0: map<string, nat>, allArgs: Dict, path: seq<string>, i: nat)
    requires i <= |field.args|
    ensures forall j :: 0 <= j < |DictAfter(field, counts0, allArgs, path, i)| ==>
      DictAfter(field, counts0, allArgs, path, i)[j].1 in field.args[..i]
  {
    if i > 0 {
      DictValues(field, counts0, allArgs, path, i - 1);
      var prev := DictAfter(field, counts0, allArgs, path, i - 1);
      var arg := field.args[i - 1];
      var key := KeyFor(CountsAfter(field, counts0, allArgs, path, i - 1), allArgs, path, field.name, arg);
      var d := Put(prev, key, arg);
      assert field.args[..i] == field.args[..i - 1] + [arg];
      forall j | 0 <= j < |d|
        ensures d[j].1 in field.args[..i]
      {
        if j < |prev| && (!HasKey(prev, key) || j != IndexOf(prev, key)) {
          assert d[j] == prev[j];
          assert prev[j].1 in field.args[..i - 1];
        }
      }
    }
  }

  /** Counters are only ever raised or created, and only at the synthetic
      names of the arguments visited: every other counter is left alone. */
  lemma {:induction false} CountsFrame(field: Field, counts0: map<string, nat>, allArgs: Dict, path: seq<string>, i: nat)
    requires i <= |field.args|
    ensures forall k :: k in counts0 ==>
      k in CountsAfter(field, counts0, allArgs, path, i) && counts0[k] <= CountsAfter(field, counts0, allArgs, path, i)[k]
    ensures forall k :: k !in NamesOf(field, path, i) ==>
      AgreesAt(CountsAfter(field, counts0, allArgs, path, i), counts0, k)
  {
    if i > 0 {
      CountsFrame(field, counts0, allArgs, path, i - 1);
      assert NamesOf(field, path, i) ==
        NamesOf(field, path, i - 1) + [SyntheticName(path, field.name, field.args[i - 1].name)];
    }
  }

  // ---------------------------------------------------------------------
  // The registry and the reduce loop

  /** The caller-owned `duplicateArgCounts` object, shared across the
      fields of one generation run and updated in place. */
  class DuplicateArgCounts {
    var counts: map<string, nat>

    constructor (seed: map<string, nat>)
      ensures counts == seed
    {
      counts := seed;
    }
  }

  /** The reduce callback of `getFieldArgsDict`: places one argument and
      updates the caller's counters in place. */
  method PlaceArgument(fieldName: string, arg: InputValue, duplicateArgCounts: DuplicateArgCounts,
                       allArgsDict: Dict, path: seq<string>, o: Dict)
    returns (o': Dict)
    modifies duplicateArgCounts
    ensures o' == Put(o, KeyFor(old(duplicateArgCounts.counts), allArgsDict, path, fieldName, arg), arg)
    ensures duplicateArgCounts.counts ==
      Bump(old(duplicateArgCounts.counts), allArgsDict, SyntheticName(path, fieldName, arg.name))
  {
    var argName := SyntheticName(path, fieldName, arg.name);
    if argName in duplicateArgCounts.counts {
      var index := duplicateArgCounts.counts[argName] + 1;
      duplicateArgCounts.counts := duplicateArgCounts.counts[argName := index];
      o' := Put(o, argName + NatToString(index), arg);
    } else if HasKey(allArgsDict, argName) {
      duplicateArgCounts.counts := duplicateArgCounts.counts[argName := 1];
      o' := Put(o, argName, arg);
    } else if |path| == 0 {
      o' := Put(o, arg.name, arg);
    } else {
      o' := Put(o, argName, arg);
    }
  }

  /** `getFieldArgsDict`: builds the argument dictionary key by key and
      updates the caller's counters in place. */
  method GetFieldArgsDict(field: Field, duplicateArgCounts: DuplicateArgCounts, allArgsDict: Dict, path: seq<string>)
    returns (o: Dict)
    modifies duplicateArgCounts
    ensures Outcome(o, duplicateArgCounts.counts) == FieldArgsDict(field, old(duplicateArgCounts.counts), allArgsDict, path)
    ensures DistinctKeys(o) && |o| <= |field.args|
  {
    ghost var counts0 := duplicateArgCounts.counts;
    o := [];
    var i := 0;
    while i < |field.args|
      invariant 0 <= i <= |field.args|
      invariant o == DictAfter(field, counts0, allArgsDict, path, i)
      invariant duplicateArgCounts.counts == CountsAfter(field, counts0, allArgsDict, path, i)
    {
      AfterStep(field, counts0, allArgsDict, path, i);
      o := PlaceArgument(field.name, field.args[i], duplicateArgCounts, allArgsDict, path, o);
      i := i + 1;
    }
    DictKeys(field, counts0, allArgsDict, path, |field.args|);
  }

  // ---------------------------------------------------------------------
  // Properties

  predicate ArgNamesDistinct(field: Field)
  {
    forall j, k :: 0 <= j < k < |field.args| ==> field.args[j].name != field.args[k].name
  }

  /** The key argument `j` is given under the initial counters. */
  function InitialKey(field: Field, counts0: map<string, nat>, allArgs: Dict, path: seq<string>, j: nat): string
    requires j < |field.args|
  {
    KeyFor(counts0, allArgs, path, field.name, field.args[j])
  }

  /** With distinct argument names, each synthetic name is met once, so its
      counter ends as one `Bump` of the initial counters leaves it: c + 1
      when present, 1 when the name is only in `allArgsDict`, absent
      otherwise; and the counters seen when argument `j` is placed still
      agree with the initial ones at its name. */
  lemma {:induction false} CountsDistinct(field: Field, counts0: map<string, nat>, allArgs: Dict, path: seq<string>, i: nat)
    requires i <= |field.args|
    requires ArgNamesDistinct(field)
    ensures forall j :: 0 <= j < i ==>
      var n := SyntheticName(path, field.name, field.args[j].name);
      AgreesAt(CountsAfter(field, counts0, allArgs, path, i), Bump(counts0, allArgs, n), n)
    ensures forall j :: i <= j < |field.args| ==>
      KeyFor(CountsAfter(field, counts0, allArgs, path, i), allArgs, path, field.name, field.args[j]) ==
      InitialKey(field, counts0, allArgs, path, j)
  {
    var counts := CountsAfter(field, counts0, allArgs, path, i);
    CountsFrame(field, counts0, allArgs, path, i);
    forall j | i <= j < |field.args|
      ensures KeyFor(counts, allArgs, path, field.name, field.args[j]) == InitialKey(field, counts0, allArgs, path, j)
    {
      NotVisited(field, path, i, j);
      KeyForAgrees(counts, counts0, allArgs, path, field.name, field.args[j]);
    }
    if i > 0 {
      var prev := CountsAfter(field, counts0, allArgs, path, i - 1);
      var n := SyntheticName(path, field.name, field.args[i - 1].name);
      CountsDistinct(field, counts0, allArgs, path, i - 1);
      CountsFrame(field, counts0, allArgs, path, i - 1);
      NotVisited(field, path, i - 1, i - 1);
      BumpAgrees(prev, counts0, allArgs, n);
      forall j | 0 <= j < i - 1
        ensures var m := SyntheticName(path, field.name, field.args[j].name);
          AgreesAt(counts, Bump(counts0, allArgs, m), m)
      {
        NamesDiffer(field, path, j, i - 1);
        BumpElsewhere(prev, allArgs, n, SyntheticName(path, field.name, field.args[j].name));
      }
    }
  }

  /** With distinct argument names, argument `j`'s synthetic name is not
      among those of the first `i <= j` arguments. */
  lemma NotVisited(field: Field, path: seq<string>, i: nat, j: nat)
    requires ArgNamesDistinct(field)
    requires i <= j < |field.args|
    ensures SyntheticName(path, field.name, field.args[j].name) !in NamesOf(field, path, i)
  {
    var names := NamesOf(field, path, i);
    forall m | 0 <= m < i
      ensures names[m] != SyntheticName(path, field.name, field.args[j].name)
    {
      NamesDiffer(field, path, m, j);
    }
  }

  lemma NamesDiffer(field: Field, path: seq<string>, j: nat, k: nat)
    requires ArgNamesDistinct(field)
    requires j < k < |field.args|
    ensures SyntheticName(path, field.name, field.args[j].name) != SyntheticName(path, field.name, field.args[k].name)
  {
    if SyntheticName(path, field.name, field.args[j].name) == SyntheticName(path, field.name, field.args[k].name) {
      SyntheticNameInjective(path, field.name, field.args[j].name, field.args[k].name);
    }
  }

  /** The key an argument gets depends on the counters only at its synthetic name. */
  lemma KeyForAgrees(m1: map<string, nat>, m2: map<string, nat>, allArgs: Dict, path: seq<string>, fieldName: string, arg: InputValue)
    requires AgreesAt(m1, m2, SyntheticName(path, fieldName, arg.name))
    ensures KeyFor(m1, allArgs, path, fieldName, arg) == KeyFor(m2, allArgs, path, fieldName, arg)
  {
  }

  /** Bumping a name in two counter maps that agree there keeps them agreeing there. */
  lemma BumpAgrees(m1: map<string, nat>, m2: map<string, nat>, allArgs: Dict, n: string)
    requires AgreesAt(m1, m2, n)
    ensures AgreesAt(Bump(m1, allArgs, n), Bump(m2, allArgs, n), n)
  {
  }

  /** Bumping a name leaves every other counter alone. */
  lemma BumpElsewhere(m: map<string, nat>, allArgs: Dict, n: string, k: string)
    requires k != n
    ensures AgreesAt(Bump(m, allArgs, n), m, k)
  {
  }

  /** The first `i` arguments, each under the key the initial counters give it. */
  function InitialEntries(field: Field, counts0: map<string, nat>, allArgs: Dict, path: seq<string>, i: nat): (r: Dict)
    requires i <= |field.args|
    ensures |r| == i
    ensures forall j :: 0 <= j < i ==> r[j] == (InitialKey(field, counts0, allArgs, path, j), field.args[j])
  {
    if i == 0 then []
    else InitialEntries(field, counts0, allArgs, path, i - 1) + [(InitialKey(field, counts0, allArgs, path, i - 1), field.args[i - 1])]
  }

  /** When argument names are distinct and the keys they are given do not
      clash, every argument is recorded under the key its synthetic name,
      the initial counters and `allArgsDict` decide, in declaration order. */
  lemma {:induction false} DictDistinct(field: Field, counts0: map<string, nat>, allArgs: Dict, path: seq<string>, i: nat)
    requires i <= |field.args|
    requires ArgNamesDistinct(field)
    requires forall j, k :: 0 <= j < k < i ==>
      InitialKey(field, counts0, allArgs, path, j) != InitialKey(field, counts0, allArgs, path, k)
    ensures DictAfter(field, counts0, allArgs, path, i) == InitialEntries(field, counts0, allArgs, path, i)
  {
    if i > 0 {
      DictDistinct(field, counts0, allArgs, path, i - 1);
      StepKey(field, counts0, allArgs, path, i - 1);
      FreshKey(field, counts0, allArgs, path, i - 1);
      AfterStep(field, counts0, allArgs, path, i - 1);
      var prev := DictAfter(field, counts0, allArgs, path, i - 1);
      var key := InitialKey(field, counts0, allArgs, path, i - 1);
      var arg := field.args[i - 1];
      assert DictAfter(field, counts0, allArgs, path, i) == prev + [(key, arg)];
      assert InitialEntries(field, counts0, allArgs, path, i) ==
        InitialEntries(field, counts0, allArgs, path, i - 1) + [(key, arg)];
    }
  }

  /** With distinct argument names, argument `i` is placed under its initial key. */
  lemma StepKey(field: Field, counts0: map<string, nat>, allArgs: Dict, path: seq<string>, i: nat)
    requires i < |field.args|
    requires ArgNamesDistinct(field)
    ensures KeyFor(CountsAfter(field, counts0, allArgs, path, i), allArgs, path, field.name, field.args[i]) ==
      InitialKey(field, counts0, allArgs, path, i)
  {
    CountsDistinct(field, counts0, allArgs, path, i);
  }

  /** The initial key of argument `i` is not among those of the earlier ones
      when all the initial keys differ. */
  lemma FreshKey(field: Field, counts0: map<string, nat>, allArgs: Dict, path: seq<string>, i: nat)
    requires i < |field.args|
    requires forall j, k :: 0 <= j < k <= i ==>
      InitialKey(field, counts0, allArgs, path, j) != InitialKey(field, counts0, allArgs, path, k)
    ensures !HasKey(InitialEntries(field, counts0, allArgs, path, i), InitialKey(field, counts0, allArgs, path, i))
  {
    var prev := InitialEntries(field, counts0, allArgs, path, i);
    var key := InitialKey(field, counts0, allArgs, path, i);
    forall j | 0 <= j < |prev|
      ensures prev[j].0 != key
    {
      assert prev[j].0 == InitialKey(field, counts0, allArgs, path, j);
    }
  }

  /** The synthetic names of a field's arguments collide with no counter
      and no entry of `allArgsDict`. */
  predicate NoCollisions(field: Field, counts0: map<string, nat>, allArgs: Dict, path: seq<string>)
  {
    forall j :: 0 <= j < |field.args| ==>
      SyntheticName(path, field.name, field.args[j].name) !in counts0 &&
      !HasKey(allArgs, SyntheticName(path, field.name, field.args[j].name))
  }

  /** Without collisions, a root field keys by the bare argument name and
      any other field by the synthetic name. */
  function PlainKey(field: Field, path: seq<string>, j: nat): string
    requires j < |field.args|
  {
    if |path| == 0 then field.args[j].name else SyntheticName(path, field.name, field.args[j].name)
  }

  /** Without collisions: one entry per argument, in declaration order,
      under its bare name for a root field and its synthetic name below
      the root, and the counters are left exactly as they were. */
  lemma NoCollisionKeys(field: Field, counts0: map<string, nat>, allArgs: Dict, path: seq<string>)
    requires ArgNamesDistinct(field) && NoCollisions(field, counts0, allArgs, path)
    ensures FieldArgsDict(field, counts0, allArgs, path) ==
      Outcome(seq(|field.args|, j requires 0 <= j < |field.args| => (PlainKey(field, path, j), field.args[j])), counts0)
  {
    NoCollisionDict(field, counts0, allArgs, path);
    NoCollisionCounts(field, counts0, allArgs, path, |field.args|);
  }

  lemma NoCollisionDict(field: Field, counts0: map<string, nat>, allArgs: Dict, path: seq<string>)
    requires ArgNamesDistinct(field) && NoCollisions(field, counts0, allArgs, path)
    ensures DictAfter(field, counts0, allArgs, path, |field.args|) ==
      seq(|field.args|, j requires 0 <= j < |field.args| => (PlainKey(field, path, j), field.args[j]))
  {
    var i := |field.args|;
    forall j | 0 <= j < i
      ensures InitialKey(field, counts0, allArgs, path, j) == PlainKey(field, path, j)
    {
    }
    forall j, k | 0 <= j < k < i
      ensures InitialKey(field, counts0, allArgs, path, j) != InitialKey(field, counts0, allArgs, path, k)
    {
      if |path| > 0 {
        NamesDiffer(field, path, j, k);
      }
    }
    DictDistinct(field, counts0, allArgs, path, i);
  }

  /** Without collisions no turn of the reduce touches a counter. */
  lemma {:induction false} NoCollisionCounts(field: Field, counts0: map<string, nat>, allArgs: Dict, path: seq<string>, i: nat)
    requires i <= |field.args| && NoCollisions(field, counts0, allArgs, path)
    ensures CountsAfter(field, counts0, allArgs, path, i) == counts0
  {
    if i > 0 {
      NoCollisionCounts(field, counts0, allArgs, path, i - 1);
    }
  }

  /** A synthetic name that already has a counter: the counter becomes
      old + 1, the argument is stored under the name with the new counter
      appended, and no other counter changes. */
  lemma CounterCollision(field: Field, counts0: map<string, nat>, allArgs: Dict, path: seq<string>)
    requires |field.args| == 1
    requires SyntheticName(path, field.name, field.args[0].name) in counts0
    ensures var n := SyntheticName(path, field.name, field.args[0].name);
      FieldArgsDict(field, counts0, allArgs, path) ==
        Outcome([(n + NatToString(counts0[n] + 1), field.args[0])], counts0[n := counts0[n] + 1])
  {
    AfterStep(field, counts0, allArgs, path, 0);
    var key := SyntheticName(path, field.name, field.args[0].name);
    assert [] + [(key + NatToString(counts0[key] + 1), field.args[0])] == [(key + NatToString(counts0[key] + 1), field.args[0])];
  }

  /** A synthetic name without a counter that `allArgsDict` already holds:
      its counter starts at 1 and the argument is stored under the bare
      synthetic name, even for a root field. */
  lemma AllArgsCollision(field: Field, counts0: map<string, nat>, allArgs: Dict, path: seq<string>)
    requires |field.args| == 1
    requires SyntheticName(path, field.name, field.args[0].name) !in counts0
    requires HasKey(allArgs, SyntheticName(path, field.name, field.args[0].name))
    ensures var n := SyntheticName(path, field.name, field.args[0].name);
      FieldArgsDict(field, counts0, allArgs, path) == Outcome([(n, field.args[0])], counts0[n := 1])
  {
    AfterStep(field, counts0, allArgs, path, 0);
    var key := SyntheticName(path, field.name, field.args[0].name);
    assert [] + [(key, field.args[0])] == [(key, field.args[0])];
  }

  /** Turn `i` of the reduce when the argument's synthetic name already has
      a counter `c`: the argument goes under the name with `c + 1` appended
      and that counter becomes `c + 1`. */
  lemma CounterCollisionAt(field: Field, counts0: map<string, nat>, allArgs: Dict, path: seq<string>, i: nat)
    requires i < |field.args|
    requires SyntheticName(path, field.name, field.args[i].name) in CountsAfter(field, counts0, allArgs, path, i)
    ensures var counts, n := CountsAfter(field, counts0, allArgs, path, i), SyntheticName(path, field.name, field.args[i].name);
      var key := n + NatToString(counts[n] + 1);
      DictAfter(field, counts0, allArgs, path, i + 1) == Put(DictAfter(field, counts0, allArgs, path, i), key, field.args[i]) &&
      (key, field.args[i]) in DictAfter(field, counts0, allArgs, path, i + 1) &&
      CountsAfter(field, counts0, allArgs, path, i + 1) == counts[n := counts[n] + 1]
  {
    var counts, n := CountsAfter(field, counts0, allArgs, path, i), SyntheticName(path, field.name, field.args[i].name);
    AfterStep(field, counts0, allArgs, path, i);
    PutHolds(DictAfter(field, counts0, allArgs, path, i), n + NatToString(counts[n] + 1), field.args[i]);
  }

  /** Turn `i` of the reduce when the synthetic name has no counter but is
      a key of `allArgsDict`: the argument goes under the bare synthetic
      name, even for a root field, and its counter starts at 1. */
  lemma AllArgsCollisionAt(field: Field, counts0: map<string, nat>, allArgs: Dict, path: seq<string>, i: nat)
    requires i < |field.args|
    requires SyntheticName(path, field.name, field.args[i].name) !in CountsAfter(field, counts0, allArgs, path, i)
    requires HasKey(allArgs, SyntheticName(path, field.name, field.args[i].name))
    ensures var counts, n := CountsAfter(field, counts0, allArgs, path, i), SyntheticName(path, field.name, field.args[i].name);
      DictAfter(field, counts0, allArgs, path, i + 1) == Put(DictAfter(field, counts0, allArgs, path, i), n, field.args[i]) &&
      (n, field.args[i]) in DictAfter(field, counts0, allArgs, path, i + 1) &&
      CountsAfter(field, counts0, allArgs, path, i + 1) == counts[n := 1]
  {
    var n := SyntheticName(path, field.name, field.args[i].name);
    AfterStep(field, counts0, allArgs, path, i);
    PutHolds(DictAfter(field, counts0, allArgs, path, i), n, field.args[i]);
  }

  /** Turn `i` of the reduce when the synthetic name collides with nothing:
      the argument goes under its bare name at the root and its synthetic
      name below it, and no counter changes. */
  lemma PlainAt(field: Field, counts0: map<string, nat>, allArgs: Dict, path: seq<string>, i: nat)
    requires i < |field.args|
    requires SyntheticName(path, field.name, field.args[i].name) !in CountsAfter(field, counts0, allArgs, path, i)
    requires !HasKey(allArgs, SyntheticName(path, field.name, field.args[i].name))
    ensures DictAfter(field, counts0, allArgs, path, i + 1) ==
      Put(DictAfter(field, counts0, allArgs, path, i), PlainKey(field, path, i), field.args[i])
    ensures (PlainKey(field, path, i), field.args[i]) in DictAfter(field, counts0, allArgs, path, i + 1)
    ensures CountsAfter(field, counts0, allArgs, path, i + 1) == CountsAfter(field, counts0, allArgs, path, i)
  {
    AfterStep(field, counts0, allArgs, path, i);
    PutHolds(DictAfter(field, counts0, allArgs, path, i), PlainKey(field, path, i), field.args[i]);
  }

  /** Synthetic names are not unique across paths: `path.join('_')` cannot
      tell a path segment holding `_` from two segments, so `x` of `f`
      under `a_b` and under `a`, `b` both become `a_b_f_x`. */
  lemma PathCollision()
    ensures SyntheticName(["a_b"], "f", "x") == SyntheticName(["a", "b"], "f", "x") == "a_b_f_x"
  {
    assert ["a", "b"][1..] == ["b"];
    assert Join("_", ["a", "b"]) == "a" + "_" + "b";
    assert "a" + "_" + "b" == "a_b";
  }

  /** The `allArgsDict` branch stores the argument under a key that
      `allArgsDict` already holds: `x` of `f` under `p`, with `p_f_x`
      already in `allArgsDict`, is keyed `p_f_x` again. */
  lemma AllArgsKeyReused(a: InputValue)
    requires a.name == "x"
    ensures FieldArgsDict(Field("f", [a]), map[], [("p_f_x", a)], ["p"]) == Outcome([("p_f_x", a)], map["p_f_x" := 1])
  {
    assert Join("_", ["p"]) == "p";
    assert SyntheticName(["p"], "f", "x") == "p_f_x";
    assert HasKey([("p_f_x", a)], "p_f_x");
    AllArgsCollision(Field("f", [a]), map[], [("p_f_x", a)], ["p"]);
  }

  /** A suffixed key can equal another argument's synthetic name: with
      arguments `a` and `a2` of `f` under path `p` and the counter of
      `p_f_a` at 1, both land on `p_f_a2`, and the second overwrites the
      first, so the dictionary holds one entry for two arguments. */
  lemma SuffixClash(a: InputValue, a2: InputValue)
    requires a.name == "a" && a2.name == "a2"
    ensures FieldArgsDict(Field("f", [a, a2]), map["p_f_a" := 1], [], ["p"]) ==
      Outcome([("p_f_a2", a2)], map["p_f_a" := 2])
  {
    var field := Field("f", [a, a2]);
    var counts0 := map["p_f_a" := 1];
    assert Join("_", ["p"]) == "p";
    assert SyntheticName(["p"], "f", "a") == "p_f_a";
    assert SyntheticName(["p"], "f", "a2") == "p_f_a2";
    assert NatToString(2) == "2";
    assert CountsAfter(field, counts0, [], ["p"], 1) == map["p_f_a" := 2];
    AfterStep(field, counts0, [], ["p"], 0);
    AfterStep(field, counts0, [], ["p"], 1);
    assert KeyFor(counts0, [], ["p"], "f", a) == "p_f_a2";
    assert [] + [("p_f_a2", a)] == [("p_f_a2", a)];
    assert DictAfter(field, counts0, [], ["p"], 1) == [("p_f_a2", a)];
    assert IndexOf([("p_f_a2", a)], "p_f_a2") == 0;
  }
}
