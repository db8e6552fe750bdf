/** Strings as the generator builds them: joining, decimal rendering of
    naturals (JavaScript's number-to-string for the integers that occur),
    and a bracket-balance checker for the literal texts it emits. */
module Text {

  /** `parts.join(sep)`: the parts in order, `sep` between neighbours. */
  function Join(sep: string, parts: seq<string>): (r: string)
    ensures parts == [] ==> r == ""
    ensures |parts| == 1 ==> r == parts[0]
  {
    if parts == [] then ""
    else if |parts| == 1 then parts[0]
    else parts[0] + sep + Join(sep, parts[1..])
  }

  /** Joining two non-empty runs is joining each and putting one separator between. */
  lemma {:induction false} JoinAppend(sep: string, a: seq<string>, b: seq<string>)
    requires a != [] && b != []
    ensures Join(sep, a + b) == Join(sep, a) + sep + Join(sep, b)
  {
    if |a| == 1 {
      assert (a + b)[1..] == b;
    } else {
      assert (a + b)[1..] == a[1..] + b;
      JoinAppend(sep, a[1..], b);
    }
  }

  predicate IsDigit(c: char) { '0' <= c <= '9' }

  predicate AllDigits(s: string) { forall i :: 0 <= i < |s| ==> IsDigit(s[i]) }

  function DigitChar(d: nat): (c: char)
    requires d < 10
    ensures IsDigit(c) && c as int - '0' as int == d
  {
    (d + '0' as int) as char
  }

  /** Decimal text of a natural, most significant digit first, no leading zeros. */
  function NatToString(n: nat): (s: string)
    ensures |s| >= 1 && AllDigits(s)
    ensures |s| > 1 ==> s[0] != '0'
    decreases n
  {
    if n < 10 then [DigitChar(n)] else NatToString(n / 10) + [DigitChar(n % 10)]
  }

  /** Reads a run of decimal digits back into the natural it denotes. */
  function ParseNat(s: string): nat
    requires AllDigits(s)
  {
    if s == [] then 0
    else ParseNat(s[..|s| - 1]) * 10 + (s[|s| - 1] as int - '0' as int)
  }

  /** Rendering a natural in decimal loses nothing. */
  lemma {:induction false} ParseNatToString(n: nat)
    ensures ParseNat(NatToString(n)) == n
  {
    var s := NatToString(n);
    if n >= 10 {
      assert s[..|s| - 1] == NatToString(n / 10);
      ParseNatToString(n / 10);
    }
  }

  /** Decimal rendering is injective: no two naturals share a text. */
  lemma NatToStringInjective(m: nat, n: nat)
    requires NatToString(m) == NatToString(n)
    ensures m == n
  {
    ParseNatToString(m);
    ParseNatToString(n);
  }

  // ---------------------------------------------------------------------
  // Brackets. A text is balanced when scanning it with a stack of open
  // brackets never meets a closer of the wrong kind or an empty stack, and
  // ends with the stack empty.

  predicate IsOpener(c: char) { c == '{' || c == '[' }
  predicate IsCloser(c: char) { c == '}' || c == ']' }

  function OpenerOf(c: char): char
    requires IsCloser(c)
  {
    if c == '}' then '{' else '['
  }

  datatype ScanState = Stuck | Open(stack: seq<char>)

  /** Scans `s` starting from the open brackets in `stack` (innermost last). */
  function Scan(s: string, stack: seq<char>): ScanState
    decreases |s|
  {
    if s == [] then Open(stack)
    else if IsOpener(s[0]) then Scan(s[1..], stack + [s[0]])
    else if IsCloser(s[0]) then
      if stack != [] && stack[|stack| - 1] == OpenerOf(s[0]) then Scan(s[1..], stack[..|stack| - 1])
      else Stuck
    else Scan(s[1..], stack)
  }

  predicate Balanced(s: string) { Scan(s, []) == Open([]) }

  predicate NoBrackets(s: string)
  {
    forall i :: 0 <= i < |s| ==> !IsOpener(s[i]) && !IsCloser(s[i])
  }

  function Continue(st: ScanState, s: string): ScanState
  {
    match st
    case Stuck => Stuck
    case Open(stack) => Scan(s, stack)
  }

  /** Scanning a concatenation scans the first half, then the second from where it left off. */
  lemma {:induction false} ScanConcat(a: string, b: string, stack: seq<char>)
    ensures Scan(a + b, stack) == Continue(Scan(a, stack), b)
    decreases |a|
  {
    if a != [] {
      assert (a + b)[0] == a[0];
      assert (a + b)[1..] == a[1..] + b;
      if IsOpener(a[0]) {
        ScanConcat(a[1..], b, stack + [a[0]]);
      } else if IsCloser(a[0]) {
        if stack != [] && stack[|stack| - 1] == OpenerOf(a[0]) {
          ScanConcat(a[1..], b, stack[..|stack| - 1]);
        }
      } else {
        ScanConcat(a[1..], b, stack);
      }
    } else {
      assert a + b == b;
    }
  }

  /** Brackets already open below the scan are never touched by it. */
  lemma {:induction false} ScanBelow(s: string, below: seq<char>, stack: seq<char>, result: seq<char>)
    requires Scan(s, stack) == Open(result)
    ensures Scan(s, below + stack) == Open(below + result)
    decreases |s|
  {
    if s != [] {
      if IsOpener(s[0]) {
        assert below + stack + [s[0]] == below + (stack + [s[0]]);
        ScanBelow(s[1..], below, stack + [s[0]], result);
      } else if IsCloser(s[0]) {
        assert (below + stack)[..|below + stack| - 1] == below + stack[..|stack| - 1];
        ScanBelow(s[1..], below, stack[..|stack| - 1], result);
      } else {
        ScanBelow(s[1..], below, stack, result);
      }
    }
  }

  lemma {:induction false} ScanNoBrackets(s: string, stack: seq<char>)
    requires NoBrackets(s)
    ensures Scan(s, stack) == Open(stack)
    decreases |s|
  {
    if s != [] {
      ScanNoBrackets(s[1..], stack);
    }
  }

  lemma BalancedConcat(a: string, b: string)
    requires Balanced(a) && Balanced(b)
    ensures Balanced(a + b)
  {
    ScanConcat(a, b, []);
  }

  lemma NoBracketsBalanced(s: string)
    requires NoBrackets(s)
    ensures Balanced(s)
  {
    ScanNoBrackets(s, []);
  }

  lemma NoBracketsConcat(a: string, b: string)
    requires NoBrackets(a) && NoBrackets(b)
    ensures NoBrackets(a + b)
  {
    assert forall i :: 0 <= i < |a + b| ==> (a + b)[i] == if i < |a| then a[i] else b[i - |a|];
  }

  /** Wrapping a balanced text in a matching pair keeps it balanced. */
  lemma {:induction false} BalancedEnclose(open: string, s: string, close: string)
    requires (open == "{ " && close == " }") || (open == "[" && close == "]")
    requires Balanced(s)
    ensures Balanced(open + s + close)
  {
    var c := open[0];
    assert [] + [c] == [c];
    if open == "{ " {
      assert open[0] == '{' && open[1..] == " ";
      ScanNoBrackets(open[1..], [c]);
      assert close[0] == ' ' && close[1..] == "}" && close[1..][1..] == "";
      assert Scan("}", [c]) == Scan("", [c][..0]);
    } else {
      assert open[0] == '[' && open[1..] == "";
      assert close[0] == ']' && close[1..] == "";
      assert Scan("]", [c]) == Scan("", [c][..0]);
    }
    assert [c][..0] == [];
    assert Scan(open, []) == Open([c]);
    assert Scan(close, [c]) == Open([]);
    ScanConcat(open, s, []);
    ScanBelow(s, [c], [], []);
    assert [c] + [] == [c];
    assert Scan(open + s, []) == Open([c]);
    ScanConcat(open + s, close, []);
  }

  /** A join of balanced parts with a bracket-free separator is balanced. */
  lemma {:induction false} BalancedJoin(sep: string, parts: seq<string>)
    requires NoBrackets(sep)
    requires forall i :: 0 <= i < |parts| ==> Balanced(parts[i])
    ensures Balanced(Join(sep, parts))
  {
    if parts == [] {
      NoBracketsBalanced("");
    } else if |parts| > 1 {
      BalancedJoin(sep, parts[1..]);
      NoBracketsBalanced(sep);
      BalancedConcat(parts[0], sep);
      BalancedConcat(parts[0] + sep, Join(sep, parts[1..]));
    }
  }

  /** A join of bracket-free parts with a bracket-free separator is bracket-free. */
  lemma {:induction false} NoBracketsJoin(sep: string, parts: seq<string>)
    requires NoBrackets(sep)
    requires forall i :: 0 <= i < |parts| ==> NoBrackets(parts[i])
    ensures NoBrackets(Join(sep, parts))
  {
    if |parts| > 1 {
      NoBracketsJoin(sep, parts[1..]);
      NoBracketsConcat(parts[0], sep);
      NoBracketsConcat(parts[0] + sep, Join(sep, parts[1..]));
    }
  }
}
