/** What breUtils/NifixExpression.hpp does with any text, be it an expression or not. */
module InfixAnyText {
  import opened Texts
  import opened Chars
  import opened Infix

  // ---------- the evaluator ----------

  predicate IsSymbol(c: char) {
    !(48 <= c as int <= 57) && c != ' '
  }

  /** How the height of the stack changes: a blank pushes an operand, and an operator takes two away. */
  function Weight(c: char): int {
    if c == ' ' then 1 else if IsSymbol(c) then -2 else 0
  }

  function Rise(s: string, i: nat, j: nat): int
    requires i <= j <= |s|
    decreases j - i
  {
    if i == j then 0 else Weight(s[i]) + Rise(s, i + 1, j)
  }

  /** The symbol at `j` is one of the four operators, and two operands lie on the stack in front of it. */
  predicate IsServed(height: int, s: string, i: nat, j: nat)
    requires i <= j < |s|
  {
    height + Rise(s, i, j) >= 2 && (s[j] == '+' || s[j] == '-' || s[j] == '*' || s[j] == '/')
  }

  lemma StepHeight(m: Machine, c: char)
    requires Evaluate(m, c).Going?
    ensures |Evaluate(m, c).m.stack| == |m.stack| + Weight(c)
    ensures IsSymbol(c) ==> |m.stack| >= 2 && (c == '+' || c == '-' || c == '*' || c == '/')
  {
  }

  /** A text only has a value if every symbol in it is an operator that finds its operands. */
  lemma {:induction false} ValueNeedsOperands(m: Machine, s: string, i: nat)
    requires i <= |s| && EvaluateFrom(m, s, i).Value?
    ensures forall j :: i <= j < |s| && IsSymbol(s[j]) ==> IsServed(|m.stack|, s, i, j)
    decreases |s| - i
  {
    if i < |s| {
      var next := Evaluate(m, s[i]).m;
      StepHeight(m, s[i]);
      ValueNeedsOperands(next, s, i + 1);
      hide EvaluateFrom, Evaluate, Weight;
      forall j | i <= j < |s| && IsSymbol(s[j]) ensures IsServed(|m.stack|, s, i, j) {
        if j > i {
          assert IsServed(|next.stack|, s, i + 1, j);
        }
      }
    }
  }

  /** The two exceptions about operators are thrown only for a symbol that is not served. */
  lemma {:induction false} ExceptionMeans(m: Machine, s: string, i: nat) returns (j: nat)
    requires i <= |s| && (EvaluateFrom(m, s, i).InsufficientOperands? || EvaluateFrom(m, s, i).InvalidOperator?)
    ensures i <= j < |s| && IsSymbol(s[j]) && !IsServed(|m.stack|, s, i, j)
    ensures EvaluateFrom(m, s, i).InsufficientOperands? ==> |m.stack| + Rise(s, i, j) < 2
    decreases |s| - i
  {
    if Evaluate(m, s[i]).Going? {
      StepHeight(m, s[i]);
      j := ExceptionMeans(Evaluate(m, s[i]).m, s, i + 1);
    } else {
      j := i;
    }
  }

  /** Whatever the text, an exception gives 0 and an overflow leaves the result undefined. */
  lemma ExceptionsGiveZero(str: string)
    requires Translate(str).Defined? && |Translate(str).value| <= 100
    ensures
      var s := Translate(str).value + seq(100 - |Translate(str).value|, _ => ' ');
      var outcome := EvaluateFrom(Machine([], 0), s, 0);
      && (outcome.Value? ==> Calculate(str) == Defined(outcome.n))
      && (outcome.Overflow? <==> Calculate(str) == Undefined)
      && (!outcome.Value? && !outcome.Overflow? ==> Calculate(str) == Defined(0))
      && (outcome.Value? ==> forall j :: 0 <= j < |s| && IsSymbol(s[j]) ==> IsServed(0, s, 0, j))
  {
    hide Translate;
    var postfix := Translate(str).value;
    var s := postfix + seq(100 - |postfix|, _ => ' ');
    assert s == postfix + Blanks(BUFFER - |postfix|);
    hide EvaluateFrom;
    if EvaluateFrom(Machine([], 0), s, 0).Value? {
      ValueNeedsOperands(Machine([], 0), s, 0);
    }
  }

  // ---------- the translator ----------

  /** How often `c` occurs. */
  function Count(s: string, c: char): nat {
    if s == "" then 0 else Count(s[..|s| - 1], c) + (if s[|s| - 1] == c then 1 else 0)
  }

  function DigitsOf(s: string): string {
    if s == "" then ""
    else DigitsOf(s[..|s| - 1]) + (if 48 <= s[|s| - 1] as int <= 57 then [s[|s| - 1]] else "")
  }

  lemma OneMore(s: string, x: char)
    ensures forall c :: Count(s + [x], c) == Count(s, c) + (if x == c then 1 else 0)
    ensures DigitsOf(s + [x]) == DigitsOf(s) + (if 48 <= x as int <= 57 then [x] else "")
  {
    assert (s + [x])[..|s|] == s;
  }

  lemma OperatorWritten(out: string, x: char)
    ensures forall c :: c != ' ' ==> Count(out + [x, ' '], c) == Count(out, c) + (if x == c then 1 else 0)
    ensures !(48 <= x as int <= 57) ==> DigitsOf(out + [x, ' ']) == DigitsOf(out)
  {
    OneMore(out, x);
    OneMore(out + [x], ' ');
    assert out + [x] + [' '] == out + [x, ' '];
  }

  /** What has been written or waits, of a character that is not a blank. */
  function Held(t: Translation, c: char): nat {
    Count(t.out, c) + Count(t.stack, c)
  }

  predicate NoDigits(stack: string) {
    forall i :: 0 <= i < |stack| ==> !(48 <= stack[i] as int <= 57)
  }

  lemma {:induction false} PopForKeeps(stack: string, out: string, x: char)
    requires NoDigits(stack)
    ensures
      var t := PopFor(stack, out, x);
      && NoDigits(t.stack) && DigitsOf(t.out) == DigitsOf(out)
      && (x == ')' && t.stack != "" ==> Top(t.stack) == '(')
      && forall c :: c != ' ' ==> Held(t, c) == Held(Translation(stack, out), c)
    decreases |stack|
  {
    if stack != "" && (if x == ')' then Top(stack) != '(' else !Symcmp(Top(stack), x)) {
      OperatorWritten(out, Top(stack));
      assert stack == Rest(stack) + [Top(stack)];
      hide DigitsOf, Symcmp;
      PopForKeeps(Rest(stack), out + [Top(stack), ' '], x);
    }
  }

  lemma {:induction false} PopAllKeeps(stack: string, out: string)
    requires NoDigits(stack)
    ensures DigitsOf(PopAll(stack, out)) == DigitsOf(out)
    ensures forall c :: c != ' ' ==> Count(PopAll(stack, out), c) == Held(Translation(stack, out), c)
    decreases |stack|
  {
    if stack != "" {
      OperatorWritten(out, Top(stack));
      assert stack == Rest(stack) + [Top(stack)];
      hide DigitsOf;
      PopAllKeeps(Rest(stack), out + [Top(stack), ' ']);
    }
  }

  lemma EndNumberKeeps(out: string)
    requires EndNumber(out).Defined?
    ensures DigitsOf(EndNumber(out).value) == DigitsOf(out)
    ensures forall c :: c != ' ' ==> Count(EndNumber(out).value, c) == Count(out, c)
  {
    OneMore(out, ' ');
  }

  /** What a closing bracket does not take off again. */
  predicate IsKept(c: char) {
    c != ' ' && c != '(' && c != ')' && !(48 <= c as int <= 57)
  }

  /** After one turn for `x`, what is held has grown by `x`, but for a bracket that closes. */
  predicate HeldGrows(t: Translation, after: Translation, x: char) {
    && (forall c :: IsKept(c) ==> Held(after, c) == Held(t, c) + (if x == c then 1 else 0))
    && Held(after, ')') == Held(t, ')')
    && Held(after, '(') <= Held(t, '(') + (if x == '(' then 1 else 0)
  }

  lemma StepKeeps(t: Translation, i: nat, x: char)
    requires NoDigits(t.stack) && Step(t, i, x).Defined?
    ensures
      var after := Step(t, i, x).value;
      && NoDigits(after.stack) && DigitsOf(after.out) == DigitsOf(t.out) + (if 48 <= x as int <= 57 then [x] else "")
      && HeldGrows(t, after, x)
  {
    hide PopFor, DigitsOf, HeldGrows, EndNumber;
    if 48 <= x as int <= 57 {
      DigitKeeps(t, x);
    } else {
      var out := (if i == 0 then Defined(t.out) else EndNumber(t.out)).value;
      if i != 0 {
        EndNumberKeeps(t.out);
      }
      PopForKeeps(t.stack, out, x);
      SymbolKeeps(t, PopFor(t.stack, out, x), x);
      assert DigitsOf(t.out) + "" == DigitsOf(t.out);
    }
  }

  lemma DigitKeeps(t: Translation, x: char)
    requires 48 <= x as int <= 57
    ensures HeldGrows(t, t.(out := t.out + [x]), x) && DigitsOf(t.out + [x]) == DigitsOf(t.out) + [x]
  {
    OneMore(t.out, x);
    hide DigitsOf, Count;
  }

  lemma SymbolKeeps(t: Translation, popped: Translation, x: char)
    requires forall c :: c != ' ' ==> Held(popped, c) == Held(t, c)
    requires x == ')' && popped.stack != "" ==> Top(popped.stack) == '('
    ensures x != ')' ==> HeldGrows(t, popped.(stack := popped.stack + [x]), x)
    ensures x == ')' && popped.stack != "" ==> HeldGrows(t, popped.(stack := Rest(popped.stack)), x)
    ensures x == ')' && popped.stack == "" ==> HeldGrows(t, popped, x)
  {
    StackTurn(popped, x);
    hide Count;
  }

  lemma StackTurn(t: Translation, x: char)
    ensures forall c :: Count(t.stack + [x], c) == Count(t.stack, c) + (if x == c then 1 else 0)
    ensures t.stack != "" ==> forall c ::
      Count(Rest(t.stack), c) == Count(t.stack, c) - (if Top(t.stack) == c then 1 else 0)
  {
    OneMore(t.stack, x);
    if t.stack != "" {
      OneMore(Rest(t.stack), Top(t.stack));
      assert t.stack == Rest(t.stack) + [Top(t.stack)];
    }
  }

  /** The text up to index `i` is accounted for: its digits have been written in order, and its other characters have
      been written or wait. */
  predicate AccountsFor(t: Translation, s: string) {
    && NoDigits(t.stack) && DigitsOf(t.out) == DigitsOf(s)
    && (forall c :: IsKept(c) ==> Held(t, c) == Count(s, c))
    && Held(t, ')') == 0 && Held(t, '(') <= Count(s, '(')
  }

  lemma AccountGrows(t: Translation, after: Translation, s: string, x: char)
    requires AccountsFor(t, s) && HeldGrows(t, after, x) && NoDigits(after.stack)
    requires DigitsOf(after.out) == DigitsOf(t.out) + (if 48 <= x as int <= 57 then [x] else "")
    ensures AccountsFor(after, s + [x])
  {
    OneMore(s, x);
    hide Held, Count, DigitsOf, NoDigits;
  }

  lemma WaitingAreSymbols(t: Translation, s: string)
    requires AccountsFor(t, s)
    ensures NoDigits(t.stack)
  {
  }

  lemma {:induction false} RunAccounts(t: Translation, s: string, i: nat)
    requires i <= |s| && AccountsFor(t, s[..i]) && Run(t, s, i).Defined?
    ensures AccountsFor(Run(t, s, i).value, s)
    decreases |s| - i
  {
    if i == |s| {
      assert s[..i] == s;
    } else {
      hide AccountsFor, HeldGrows, Step, DigitsOf, NoDigits;
      var after := Step(t, i, s[i]).value;
      WaitingAreSymbols(t, s[..i]);
      StepKeeps(t, i, s[i]);
      AccountGrows(t, after, s[..i], s[i]);
      assert s[..i] + [s[i]] == s[..i + 1];
      RunAccounts(after, s, i + 1);
    }
  }

  /** Whatever the text, the translator writes all its digits, in their order, and every other character but brackets
      and blanks as often as it occurs; no closing bracket is written, and no opening one that was not there. */
  lemma TranslateLosesNothing(s: string)
    requires Translate(s).Defined?
    ensures
      var out := Translate(s).value;
      && DigitsOf(out) == DigitsOf(s)
      && (forall c :: IsKept(c) ==> Count(out, c) == Count(s, c))
      && Count(out, ')') == 0 && Count(out, '(') <= Count(s, '(')
  {
    var start := Translation("", "");
    assert AccountsFor(start, s[..0]);
    var t := Run(start, s, 0).value;
    hide Run, DigitsOf, Count, PopAll;
    RunAccounts(start, s, 0);
    var out := EndNumber(t.out).value;
    EndNumberKeeps(t.out);
    PopAllKeeps(t.stack, out);
  }
}
