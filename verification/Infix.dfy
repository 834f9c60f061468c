/** The translator of breUtils/NifixExpression.hpp from infix to postfix notation, and the evaluator of the result. */
module Infix {
  import opened Chars
  import opened Texts

  const INT_MIN: int := -0x8000_0000
  const INT_MAX: int := 0x7FFF_FFFF

  predicate IsOperator(c: char) {
    c == '+' || c == '-' || c == '*' || c == '/'
  }

  /** `symcmp`: may `b` be pushed on top of `a`? */
  predicate Symcmp(a: char, b: char) {
    || b == '('
    || ((b == '*' || b == '/') && (a == '+' || a == '-' || a == '('))
    || ((b == '+' || b == '-') && a == '(')
  }

  // ---------- the translator, one character at a time ----------

  /** The operators that wait, the last one on top, and what has been written. */
  datatype Translation = Translation(stack: string, out: string)

  function Top(stack: string): char
    requires stack != ""
  {
    stack[|stack| - 1]
  }

  function Rest(stack: string): string
    requires stack != ""
  {
    stack[..|stack| - 1]
  }

  /** Writes operators while the top one must come before `c`; a closing bracket stops at its opening one. */
  function PopFor(stack: string, out: string, c: char): (t: Translation)
    ensures |t.stack| <= |stack|
    decreases |stack|
  {
    if stack != "" && (if c == ')' then Top(stack) != '(' else !Symcmp(Top(stack), c)) then
      PopFor(Rest(stack), out + [Top(stack), ' '], c)
    else Translation(stack, out)
  }

  function PopAll(stack: string, out: string): string
    decreases |stack|
  {
    if stack == "" then out else PopAll(Rest(stack), out + [Top(stack), ' '])
  }

  /** `str2[j - 1]` must exist: with nothing written it would be read at index -1. */
  datatype Result<+T> = Undefined | Defined(value: T)

  /** The blank that ends a number. */
  function EndNumber(out: string): Result<string> {
    if out == "" then Undefined
    else if out[|out| - 1] != ' ' then Defined(out + " ")
    else Defined(out)
  }

  /** One turn of the loop of `exp_transplant`, for the character `c` at index `i`. */
  function Step(t: Translation, i: nat, c: char): Result<Translation> {
    if IsDigit(c) then Defined(t.(out := t.out + [c]))
    else
      match if i == 0 then Defined(t.out) else EndNumber(t.out)
      case Undefined => Undefined
      case Defined(out) =>
        var popped := PopFor(t.stack, out, c);
        if c == ')' then
          Defined(if popped.stack != "" then popped.(stack := Rest(popped.stack)) else popped)
        else Defined(popped.(stack := popped.stack + [c]))
  }

  /** The state after the characters of `s` from index `i` on. */
  function Run(t: Translation, s: string, i: nat): Result<Translation>
    requires i <= |s|
    decreases |s| - i
  {
    if i == |s| then Defined(t)
    else match Step(t, i, s[i])
      case Undefined => Undefined
      case Defined(t') => Run(t', s, i + 1)
  }

  /** What `exp_transplant` writes, unless it reads in front of its buffer. */
  function Translate(s: string): Result<string> {
    match Run(Translation("", ""), s, 0)
    case Undefined => Undefined
    case Defined(t) =>
      match EndNumber(t.out)
      case Undefined => Undefined
      case Defined(out) => Defined(PopAll(t.stack, out))
  }

  // ---------- the evaluator ----------

  /** How `cal_s` ends: with a value, an exception, or a signed overflow, which C++ leaves undefined. */
  datatype Outcome = Value(n: int) | DivisionByZero | InsufficientOperands | InvalidOperator | Overflow

  datatype Machine = Machine(stack: seq<int>, tmp: int)

  datatype Progress = Going(m: Machine) | Ended(outcome: Outcome)

  function InRange(n: int): Outcome {
    if INT_MIN <= n <= INT_MAX then Value(n) else Overflow
  }

  /** Division of C++ integers, which rounds toward zero. */
  function TruncDiv(a: int, b: int): int
    requires b != 0
  {
    var q := (if a < 0 then -a else a) / (if b < 0 then -b else b);
    if (a < 0) == (b < 0) then q else -q
  }

  function Apply(op: char, a: int, b: int): Outcome {
    match op
    case '+' => InRange(a + b)
    case '-' => InRange(a - b)
    case '*' => InRange(a * b)
    case '/' => if b == 0 then DivisionByZero else InRange(TruncDiv(a, b))
    case _ => InvalidOperator
  }

  /** `tmp * 10 + c - '0'` from left to right: the code of the character is added before that of '0' is taken off. */
  function AddDigit(tmp: int, c: char): Outcome
    requires IsDigit(c)
  {
    if InRange(tmp * 10) == Overflow || InRange(tmp * 10 + c as int) == Overflow then Overflow
    else InRange(tmp * 10 + c as int - '0' as int)
  }

  function Evaluate(m: Machine, c: char): Progress {
    if IsDigit(c) then
      match AddDigit(m.tmp, c)
      case Value(n) => Going(m.(tmp := n))
      case failed => Ended(failed)
    else if c == ' ' then Going(Machine(m.stack + [m.tmp], 0))
    else if |m.stack| < 2 then Ended(InsufficientOperands)
    else
      var n := |m.stack|;
      match Apply(c, m.stack[n - 2], m.stack[n - 1])
      case Value(v) => Going(Machine(m.stack[..n - 2], v))
      case failed => Ended(failed)
  }

  /** The first operand from the top that is not 0. */
  function FirstNonZero(stack: seq<int>): int {
    if stack == [] then 0
    else if stack[|stack| - 1] != 0 then stack[|stack| - 1]
    else FirstNonZero(stack[..|stack| - 1])
  }

  function EvaluateFrom(m: Machine, s: string, i: nat): Outcome
    requires i <= |s|
    decreases |s| - i
  {
    if i == |s| then Value(FirstNonZero(m.stack))
    else match Evaluate(m, s[i])
      case Going(m') => EvaluateFrom(m', s, i + 1)
      case Ended(outcome) => outcome
  }

  const BUFFER := 100

  /** `calculate_expression`: undefined where it reads before or writes behind its buffer, or overflows. */
  function Calculate(str: string): Result<int> {
    match Translate(str)
    case Undefined => Undefined
    case Defined(postfix) =>
      if |postfix| > BUFFER then Undefined
      else match EvaluateFrom(Machine([], 0), postfix + Blanks(BUFFER - |postfix|), 0)
        case Value(n) => Defined(n)
        case Overflow => Undefined
        case _ => Defined(0)
  }

  // ---------- the two loops ----------

  lemma RunGrows(t: Translation, s: string, i: nat)
    requires i <= |s| && Run(t, s, i).Defined?
    ensures t.out <= Run(t, s, i).value.out
    decreases |s| - i
  {
    if i < |s| {
      var t' := Step(t, i, s[i]).value;
      if !IsDigit(s[i]) {
        PopForGrows(t.stack, (if i == 0 then Defined(t.out) else EndNumber(t.out)).value, s[i]);
      }
      RunGrows(t', s, i + 1);
    }
  }

  lemma {:induction false} PopForGrows(stack: string, out: string, c: char)
    ensures out <= PopFor(stack, out, c).out
    decreases |stack|
  {
    if stack != "" {
      PopForGrows(Rest(stack), out + [Top(stack), ' '], c);
    }
  }

  lemma {:induction false} PopAllGrows(stack: string, out: string)
    ensures |PopAll(stack, out)| == |out| + 2 * |stack|
    ensures out <= PopAll(stack, out)
    decreases |stack|
  {
    if stack != "" {
      PopAllGrows(Rest(stack), out + [Top(stack), ' ']);
    }
  }

  /** Whatever has been written at some moment is a part of the result, so it fits wherever the result fits. */
  lemma WrittenFits(t: Translation, s: string, i: nat)
    requires i <= |s| && Run(t, s, i).Defined? && EndNumber(Run(t, s, i).value.out).Defined?
    ensures
      var last := Run(t, s, i).value;
      |t.out| <= |last.out| <= |EndNumber(last.out).value| <= |PopAll(last.stack, EndNumber(last.out).value)|
  {
    RunGrows(t, s, i);
    var last := Run(t, s, i).value;
    PopAllGrows(last.stack, EndNumber(last.out).value);
  }

  /** Appends at `j`, as `str2[j++] = c` does. */
  method Put(buffer: array<char>, j: nat, c: char) returns (next: nat)
    requires j < buffer.Length
    modifies buffer
    ensures next == j + 1 && buffer[..next] == old(buffer[..j]) + [c]
    ensures forall k :: next <= k < buffer.Length ==> buffer[k] == old(buffer[k])
  {
    buffer[j] := c;
    next := j + 1;
  }

  /** Pops operators as the two inner loops of `exp_transplant` do. */
  method PopOperators(buffer: array<char>, j: nat, stack: string, c: char) returns (next: nat, rest: string)
    requires j <= buffer.Length && |PopFor(stack, buffer[..j], c).out| <= buffer.Length
    modifies buffer
    ensures j <= next <= buffer.Length
    ensures Translation(rest, buffer[..next]) == PopFor(stack, old(buffer[..j]), c)
    ensures c == ')' && rest != "" ==> Top(rest) == '('
    ensures forall k :: next <= k < buffer.Length ==> buffer[k] == old(buffer[k])
  {
    next, rest := j, stack;
    while rest != "" && (if c == ')' then Top(rest) != '(' else !Symcmp(Top(rest), c))
      invariant j <= next <= buffer.Length
      invariant PopFor(rest, buffer[..next], c) == PopFor(stack, old(buffer[..j]), c)
      invariant forall k :: next <= k < buffer.Length ==> buffer[k] == old(buffer[k])
      decreases |rest|
    {
      PopForGrows(Rest(rest), buffer[..next] + [Top(rest), ' '], c);
      ghost var before := buffer[..next];
      next := Put(buffer, next, Top(rest));
      next := Put(buffer, next, ' ');
      assert buffer[..next] == before + [Top(rest), ' '];
      rest := Rest(rest);
    }
  }

  /** The body of the loop of `exp_transplant`. */
  method Take(buffer: array<char>, j: nat, stack: string, i: nat, c: char) returns (next: nat, rest: string)
    requires j <= buffer.Length && Step(Translation(stack, buffer[..j]), i, c).Defined?
    requires |Step(Translation(stack, buffer[..j]), i, c).value.out| <= buffer.Length
    modifies buffer
    ensures j <= next <= buffer.Length
    ensures Defined(Translation(rest, buffer[..next])) == Step(Translation(stack, old(buffer[..j])), i, c)
    ensures forall k :: next <= k < buffer.Length ==> buffer[k] == old(buffer[k])
  {
    hide PopFor;
    next, rest := j, stack;
    if IsDigit(c) {
      next := Put(buffer, next, c);
    } else {
      PopForGrows(stack, (if i == 0 then Defined(buffer[..j]) else EndNumber(buffer[..j])).value, c);
      if i != 0 && buffer[next - 1] != ' ' {
        next := Put(buffer, next, ' ');
      }
      next, rest := PopOperators(buffer, next, rest, c);
      if c == ')' {
        if rest != "" && Top(rest) == '(' {
          rest := Rest(rest);
        }
      } else {
        rest := rest + [c];
      }
    }
  }

  /** `exp_transplant`; its callers must not let it read in front of the buffer or write behind it. */
  method ExpTransplant(str1: string, str2: array<char>)
    requires Translate(str1).Defined? && |Translate(str1).value| <= str2.Length
    modifies str2
    ensures str2[..] == Translate(str1).value + old(str2[..])[|Translate(str1).value|..]
  {
    var stack: string, j: nat := "", 0;
    ghost var start := Translation("", "");
    for i := 0 to |str1|
      invariant j <= str2.Length
      invariant Run(Translation(stack, str2[..j]), str1, i) == Run(start, str1, 0)
      invariant forall k :: j <= k < str2.Length ==> str2[k] == old(str2[k])
    {
      hide PopAll, EndNumber, Step;
      WrittenFits(Step(Translation(stack, str2[..j]), i, str1[i]).value, str1, i + 1);
      j, stack := Take(str2, j, stack, i, str1[i]);
    }
    WrittenFits(Translation(stack, str2[..j]), str1, |str1|);
    if str2[j - 1] != ' ' {
      j := Put(str2, j, ' ');
    }
    while stack != ""
      invariant j <= str2.Length
      invariant PopAll(stack, str2[..j]) == Translate(str1).value
      invariant forall k :: j <= k < str2.Length ==> str2[k] == old(str2[k])
      decreases |stack|
    {
      PopAllGrows(Rest(stack), str2[..j] + [Top(stack), ' ']);
      ghost var before := str2[..j];
      j := Put(str2, j, Top(stack));
      j := Put(str2, j, ' ');
      assert str2[..j] == before + [Top(stack), ' '];
      stack := Rest(stack);
    }
    assert str2[..j] == Translate(str1).value;
    assert str2[j..] == old(str2[..])[j..];
    assert str2[..] == str2[..j] + str2[j..];
  }

  /** `cal_s` */
  method CalS(str: string) returns (outcome: Outcome)
    ensures outcome == EvaluateFrom(Machine([], 0), str, 0)
  {
    var stack: seq<int>, tmp := [], 0;
    for i := 0 to |str|
      invariant EvaluateFrom(Machine(stack, tmp), str, i) == EvaluateFrom(Machine([], 0), str, 0)
    {
      if IsDigit(str[i]) {
        var sum := AddDigit(tmp, str[i]);
        if !sum.Value? {
          return sum;
        }
        tmp := sum.n;
      } else if str[i] == ' ' {
        stack := stack + [tmp];
        tmp := 0;
      } else {
        if |stack| < 2 {
          return InsufficientOperands;
        }
        ghost var before := stack;
        var operand2 := stack[|stack| - 1];
        stack := stack[..|stack| - 1];
        var operand1 := stack[|stack| - 1];
        stack := stack[..|stack| - 1];
        assert stack == before[..|before| - 2];
        var result := Apply(str[i], operand1, operand2);
        if !result.Value? {
          return result;
        }
        tmp := result.n;
      }
    }
    ghost var all := stack;
    while stack != []
      invariant FirstNonZero(stack) == FirstNonZero(all)
      decreases |stack|
    {
      if stack[|stack| - 1] != 0 {
        return Value(stack[|stack| - 1]);
      }
      stack := stack[..|stack| - 1];
    }
    outcome := Value(0);
  }

  method CalculateExpression(str: string) returns (r: int)
    requires Calculate(str).Defined?
    ensures Defined(r) == Calculate(str)
  {
    var s := new char[BUFFER](_ => ' ');
    assert s[..][|Translate(str).value|..] == Blanks(BUFFER - |Translate(str).value|);
    ExpTransplant(str, s);
    var outcome := CalS(s[..]);
    r := if outcome.Value? then outcome.n else 0;
  }
}
