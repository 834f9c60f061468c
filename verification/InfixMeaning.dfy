/** Every well-formed expression is given its usual value by breUtils/NifixExpression.hpp. */
module InfixMeaning {
  import opened Chars
  import opened Texts
  import opened Infix

  // ---------- expressions and what they mean ----------

  datatype Expr = Num(digits: string) | Bin(op: char, left: Expr, right: Expr) | Paren(inner: Expr)

  /** How tightly an operator binds. */
  function OpLevel(op: char): nat {
    if op == '+' || op == '-' then 0 else 1
  }

  function Level(e: Expr): nat {
    match e
    case Bin(op, _, _) => OpLevel(op)
    case _ => 2
  }

  /** The trees that reading with the usual precedences, operators of one level from left to right, gives. */
  predicate WellFormed(e: Expr) {
    match e
    case Num(digits) => digits != "" && AllDigits(digits)
    case Bin(op, l, r) =>
      IsOperator(op) && WellFormed(l) && WellFormed(r) && Level(l) >= OpLevel(op) && Level(r) > OpLevel(op)
    case Paren(inner) => WellFormed(inner)
  }

  function Show(e: Expr): string {
    match e
    case Num(digits) => digits
    case Bin(op, l, r) => Show(l) + [op] + Show(r)
    case Paren(inner) => "(" + Show(inner) + ")"
  }

  function Postfix(e: Expr): string {
    match e
    case Num(digits) => digits + " "
    case Bin(op, l, r) => Postfix(l) + Postfix(r) + [op, ' ']
    case Paren(inner) => Postfix(inner)
  }

  // ---------- the arithmetic of C++ `int` ----------

  function Abs(n: int): nat {
    if n < 0 then -n else n
  }

  /** `q` is `a / b`: rounded toward zero, and negative only when the signs differ. */
  predicate IsQuotient(a: int, b: int, q: int) {
    && 0 <= Abs(a) - Abs(q) * Abs(b) < Abs(b)
    && (q > 0 ==> (a < 0) == (b < 0))
    && (q < 0 ==> (a < 0) != (b < 0))
  }

  lemma QuotientExists(a: int, b: int)
    requires b != 0
    ensures IsQuotient(a, b, TruncDiv(a, b))
  {
    var q, r := Abs(a) / Abs(b), Abs(a) % Abs(b);
    assert Abs(TruncDiv(a, b)) == q;
    assert Abs(a) == q * Abs(b) + r;
  }

  lemma QuotientIsUnique(a: int, b: int, q: int, q': int)
    requires b != 0 && IsQuotient(a, b, q) && IsQuotient(a, b, q')
    ensures q == q'
  {
    SameQuotient(Abs(a), Abs(b), Abs(q), Abs(q'));
  }

  lemma SameQuotient(n: nat, b: nat, q: nat, q': nat)
    requires q * b <= n < q * b + b && q' * b <= n < q' * b + b
    ensures q == q'
  {
    if q < q' {
      MultipleGrows(q, q', b);
    } else if q' < q {
      MultipleGrows(q', q, b);
    }
  }

  lemma MultipleGrows(q: nat, q': nat, b: nat)
    requires q < q'
    ensures q * b + b <= q' * b
  {
    assert q' * b == q * b + b + (q' - q - 1) * b;
  }

  ghost function Quotient(a: int, b: int): (q: int)
    requires b != 0
    ensures IsQuotient(a, b, q)
  {
    QuotientExists(a, b);
    var q :| IsQuotient(a, b, q);
    q
  }

  /** A result that fits into 32 bits. */
  function Fitting(n: int): Outcome {
    if -2147483648 <= n <= 2147483647 then Value(n) else Overflow
  }

  /** What an operator means. */
  ghost function Operation(op: char, a: int, b: int): Outcome
    requires IsOperator(op)
  {
    if op == '+' then Fitting(a + b)
    else if op == '-' then Fitting(a - b)
    else if op == '*' then Fitting(a * b)
    else if b == 0 then DivisionByZero
    else Fitting(Quotient(a, b))
  }

  /** The evaluator computes what the four operators mean, and knows no others. */
  lemma ApplyIsOperation(op: char, a: int, b: int)
    ensures if IsOperator(op) then Apply(op, a, b) == Operation(op, a, b) else Apply(op, a, b) == InvalidOperator
  {
    if op == '/' && b != 0 {
      QuotientExists(a, b);
      QuotientIsUnique(a, b, Quotient(a, b), TruncDiv(a, b));
    }
  }

  /** Evaluation from left to right, as far as it gets. A literal is read with the code of '0' (48) not yet taken
      off its last digit, so it must stay that far below the greatest `int`. */
  ghost function Meaning(e: Expr): Outcome
    requires WellFormed(e)
  {
    match e
    case Num(digits) => if NatValue(digits) + 48 <= 2147483647 then Value(NatValue(digits)) else Overflow
    case Paren(inner) => Meaning(inner)
    case Bin(op, l, r) =>
      match Meaning(l)
      case Value(a) =>
        (match Meaning(r)
         case Value(b) => Operation(op, a, b)
         case failed => failed)
      case failed => failed
  }

  function Literals(e: Expr): nat {
    match e
    case Num(_) => 1
    case Bin(_, l, r) => Literals(l) + Literals(r)
    case Paren(inner) => Literals(inner)
  }

  function Digits(e: Expr): nat {
    match e
    case Num(digits) => |digits|
    case Bin(_, l, r) => Digits(l) + Digits(r)
    case Paren(inner) => Digits(inner)
  }

  lemma {:induction false} PostfixLength(e: Expr)
    ensures |Postfix(e)| == Digits(e) + 3 * Literals(e) - 2
  {
    match e {
      case Num(_) =>
      case Bin(_, l, r) =>
        PostfixLength(l);
        PostfixLength(r);
      case Paren(inner) =>
        PostfixLength(inner);
    }
  }

  // ---------- the translator ----------

  /** What has been written when the last character of `e` has been read ... */
  function Written(e: Expr): string {
    match e
    case Num(digits) => digits
    case Bin(_, l, r) => Postfix(l) + Written(r)
    case Paren(inner) => Postfix(inner)
  }

  /** ... and the operators of `e` that are still waiting then. */
  function Waiting(e: Expr): string {
    match e
    case Bin(op, _, r) => [op] + Waiting(r)
    case _ => ""
  }

  function Blanked(out: string): string
    requires out != ""
  {
    if out[|out| - 1] != ' ' then out + " " else out
  }

  lemma {:induction false} Endings(e: Expr)
    requires WellFormed(e)
    ensures Written(e) != "" && Postfix(e) != "" && Postfix(e)[|Postfix(e)| - 1] == ' '
  {
    match e {
      case Num(_) =>
      case Bin(_, l, r) =>
        Endings(l);
        Endings(r);
      case Paren(inner) =>
        Endings(inner);
    }
  }

  /** How the texts of a binary expression are put together. */
  lemma BinTexts(e: Expr, stack: string, out: string)
    requires e.Bin? && Written(e.right) != ""
    ensures Written(e) != "" && stack + Waiting(e) == stack + [e.op] + Waiting(e.right)
    ensures out + Blanked(Written(e)) == out + Postfix(e.left) + Blanked(Written(e.right))
    ensures out + Postfix(e.left) + Postfix(e.right) + [e.op, ' '] == out + Postfix(e)
  {
    var l, r, w, end := Postfix(e.left), Postfix(e.right), Written(e.right), [e.op, ' '];
    BlankedAppend(l, w);
    assert stack + Waiting(e) == stack + [e.op] + Waiting(e.right);
    assert Written(e) == l + w && Postfix(e) == l + r + end;
    hide Postfix, Written, Waiting, Blanked;
    assert out + (l + Blanked(w)) == out + l + Blanked(w);
    assert out + (l + r + end) == out + l + r + end;
  }

  lemma BlankedAppend(a: string, b: string)
    requires b != ""
    ensures Blanked(a + b) == a + Blanked(b)
  {
    assert a + b + " " == a + (b + " ");
  }

  /** Does `c` send every operator of level `level` or more to the output? */
  predicate Flushes(c: char, level: nat) {
    c == ')' || (IsOperator(c) && OpLevel(c) <= level)
  }

  /** A character that flushes the waiting operators of `e` completes its postfix form. */
  lemma {:induction false} FlushCompletes(e: Expr, stack: string, out: string, c: char)
    requires WellFormed(e) && Flushes(c, Level(e))
    ensures Written(e) != ""
    ensures PopFor(stack + Waiting(e), out + Blanked(Written(e)), c) == PopFor(stack, out + Postfix(e), c)
    decreases e
  {
    Endings(e);
    hide PopFor;
    match e {
      case Num(digits) =>
        assert digits[|digits| - 1] != ' ';
        assert stack + Waiting(e) == stack;
      case Paren(inner) =>
        Endings(inner);
        assert stack + Waiting(e) == stack;
      case Bin(op, l, r) =>
        Endings(r);
        var below, before := stack + [op], out + Postfix(l);
        FlushCompletes(r, below, before, c);
        BinTexts(e, stack, out);
        FlushOne(stack, op, before + Postfix(r), c);
    }
  }

  lemma FlushOne(stack: string, op: char, out: string, c: char)
    requires IsOperator(op) && Flushes(c, OpLevel(op))
    ensures PopFor(stack + [op], out, c) == PopFor(stack, out + [op, ' '], c)
  {
    assert Rest(stack + [op]) == stack && Top(stack + [op]) == op;
  }

  lemma {:induction false} FinalFlushCompletes(e: Expr, stack: string, out: string)
    requires WellFormed(e)
    ensures Written(e) != ""
    ensures PopAll(stack + Waiting(e), out + Blanked(Written(e))) == PopAll(stack, out + Postfix(e))
    decreases e
  {
    Endings(e);
    match e {
      case Num(digits) =>
        assert digits[|digits| - 1] != ' ';
        assert stack + Waiting(e) == stack;
      case Paren(inner) =>
        Endings(inner);
        assert stack + Waiting(e) == stack;
      case Bin(op, l, r) =>
        Endings(r);
        var below, before := stack + [op], out + Postfix(l);
        FinalFlushCompletes(r, below, before);
        BinTexts(e, stack, out);
        assert Rest(below) == stack && Top(below) == op;
    }
  }

  /** Operators of level `level` or more are pushed on this stack without popping anything. */
  predicate Rests(stack: string, level: nat) {
    stack == "" || Top(stack) == '(' || (IsOperator(Top(stack)) && OpLevel(Top(stack)) < level)
  }

  /** The output ends between two tokens. */
  predicate BetweenTokens(out: string) {
    out == "" || out[|out| - 1] == ' '
  }

  /** An opening bracket is read where the output is empty only at the very start. */
  predicate Readable(out: string, i: nat, text: string) {
    || out != ""
    || (text != "" && IsDigit(text[0]))
    || (i == 0 && (|text| >= 2 ==> text[1] != '('))
  }

  lemma {:induction false} RunDigits(t: Translation, s: string, i: nat, digits: string)
    requires AllDigits(digits) && Has(s, i, digits)
    ensures Run(t, s, i) == Run(t.(out := t.out + digits), s, i + |digits|)
    decreases |digits|
  {
    if digits == "" {
      assert t.out + digits == t.out;
    } else {
      assert s[i] == digits[0];
      assert digits == [digits[0]] + digits[1..];
      HasSplit(s, i, [digits[0]], digits[1..]);
      RunDigits(t.(out := t.out + [digits[0]]), s, i + 1, digits[1..]);
      assert t.out + [digits[0]] + digits[1..] == t.out + digits;
    }
  }

  lemma {:induction false} ShowStarts(e: Expr)
    requires WellFormed(e)
    ensures Show(e) != "" && (IsDigit(Show(e)[0]) || Show(e)[0] == '(')
    ensures !IsDigit(Show(e)[0]) ==> |Show(e)| >= 2
  {
    match e {
      case Num(_) =>
      case Bin(_, l, _) => ShowStarts(l);
      case Paren(inner) => ShowStarts(inner);
    }
  }

  /** The translator reads an expression on top of whatever waits below, and leaves exactly its own operators. */
  lemma {:induction false} ExprIsTranslated(e: Expr, stack: string, out: string, s: string, i: nat)
    requires WellFormed(e) && Has(s, i, Show(e))
    requires Rests(stack, Level(e)) && BetweenTokens(out) && Readable(out, i, Show(e))
    ensures Run(Translation(stack, out), s, i)
         == Run(Translation(stack + Waiting(e), out + Written(e)), s, i + |Show(e)|)
    decreases e
  {
    match e {
      case Num(digits) =>
        RunDigits(Translation(stack, out), s, i, digits);
        assert stack + Waiting(e) == stack;
      case Paren(inner) =>
        ParenIsTranslated(e, stack, out, s, i);
        ParenPostfix(e);
        assert stack + Waiting(e) == stack;
      case Bin(op, l, r) =>
        BinIsTranslated(e, stack, out, s, i);
        assert stack + [op] + Waiting(r) == stack + Waiting(e);
        assert out + Postfix(l) + Written(r) == out + Written(e);
    }
  }

  lemma RunStep(t: Translation, s: string, i: nat, next: Translation)
    requires i < |s| && Step(t, i, s[i]) == Defined(next)
    ensures Run(t, s, i) == Run(next, s, i + 1)
  {
  }

  lemma EndNumberIsBlanked(out: string, w: string)
    requires w != ""
    ensures EndNumber(out + w) == Defined(out + Blanked(w))
  {
    assert out + w + " " == out + (w + " ");
  }

  /** The opening bracket is pushed. */
  lemma OpenStep(stack: string, out: string, i: nat)
    requires BetweenTokens(out) && (i == 0 || out != "")
    ensures Step(Translation(stack, out), i, '(') == Defined(Translation(stack + ['('], out))
  {
  }

  /** The closing bracket flushes the expression in front of it, down to the opening bracket. */
  lemma CloseStep(inner: Expr, stack: string, out: string, i: nat)
    requires WellFormed(inner) && i > 0
    ensures Step(Translation(stack + ['('] + Waiting(inner), out + Written(inner)), i, ')')
         == Defined(Translation(stack, out + Postfix(inner)))
  {
    hide Waiting, Written, Postfix;
    Endings(inner);
    var below := stack + ['('];
    FlushCompletes(inner, below, out, ')');
    EndNumberIsBlanked(out, Written(inner));
    assert Rest(below) == stack && Top(below) == '(';
  }

  /** An operator flushes its left operand and waits. */
  lemma OperatorStep(l: Expr, stack: string, out: string, i: nat, op: char)
    requires WellFormed(l) && i > 0 && IsOperator(op) && OpLevel(op) <= Level(l) && Rests(stack, OpLevel(op))
    ensures Step(Translation(stack + Waiting(l), out + Written(l)), i, op)
         == Defined(Translation(stack + [op], out + Postfix(l)))
  {
    hide Waiting, Written, Postfix;
    Endings(l);
    FlushCompletes(l, stack, out, op);
    EndNumberIsBlanked(out, Written(l));
  }

  /** Where the parts of an expression in brackets stand. */
  lemma ParenStands(e: Expr, out: string, s: string, i: nat)
    requires e.Paren? && WellFormed(e) && Has(s, i, Show(e)) && Readable(out, i, Show(e))
    ensures
      var end := i + 1 + |Show(e.inner)|;
      && i < end < |s| && s[i] == '(' && s[end] == ')' && i + |Show(e)| == end + 1
      && Has(s, i + 1, Show(e.inner)) && (i == 0 || out != "") && Readable(out, i + 1, Show(e.inner))
  {
    var inner := Show(e.inner);
    ShowStarts(e.inner);
    assert Show(e) == "(" + (inner + ")");
    HasSplit(s, i, "(", inner + ")");
    HasSplit(s, i + 1, inner, ")");
    assert s[i] == "("[0] && s[i + 1 + |inner|] == ")"[0];
    assert Show(e)[0] == '(' && Show(e)[1] == inner[0];
  }

  lemma {:induction false} ParenIsTranslated(e: Expr, stack: string, out: string, s: string, i: nat)
    requires e.Paren? && WellFormed(e) && Has(s, i, Show(e))
    requires BetweenTokens(out) && Readable(out, i, Show(e))
    ensures Run(Translation(stack, out), s, i) == Run(Translation(stack, out + Postfix(e)), s, i + |Show(e)|)
    decreases e, 0
  {
    hide Run, Step, Waiting, Written, Postfix, Show, Readable, Has;
    var inner, below := e.inner, stack + ['('];
    var end := i + 1 + |Show(inner)|;
    ParenStands(e, out, s, i);
    OpenStep(stack, out, i);
    RunStep(Translation(stack, out), s, i, Translation(below, out));
    ExprIsTranslated(inner, below, out, s, i + 1);
    CloseStep(inner, stack, out, end);
    RunStep(Translation(below + Waiting(inner), out + Written(inner)), s, end,
            Translation(stack, out + Postfix(inner)));
    ParenPostfix(e);
  }

  lemma ParenPostfix(e: Expr)
    requires e.Paren?
    ensures Postfix(e) == Postfix(e.inner) == Written(e) && Waiting(e) == ""
  {
  }

  /** Where the parts of a binary expression stand. */
  lemma BinStands(e: Expr, out: string, before: string, s: string, i: nat)
    requires before != "" && e.Bin? && WellFormed(e) && Has(s, i, Show(e)) && Readable(out, i, Show(e))
    ensures
      var middle := i + |Show(e.left)|;
      && i < middle < |s| && s[middle] == e.op && i + |Show(e)| == middle + 1 + |Show(e.right)|
      && Has(s, i, Show(e.left)) && Has(s, middle + 1, Show(e.right))
      && Readable(out, i, Show(e.left)) && Readable(before, middle + 1, Show(e.right))
  {
    var l, r := Show(e.left), Show(e.right);
    var middle := i + |l|;
    ShowStarts(e.left);
    assert Show(e) == l + ([e.op] + r);
    HasSplit(s, i, l, [e.op] + r);
    HasSplit(s, middle, [e.op], r);
    assert s[middle] == [e.op][0];
  }

  lemma {:induction false} BinIsTranslated(e: Expr, stack: string, out: string, s: string, i: nat)
    requires e.Bin? && WellFormed(e) && Has(s, i, Show(e))
    requires Rests(stack, Level(e)) && BetweenTokens(out) && Readable(out, i, Show(e))
    ensures Run(Translation(stack, out), s, i)
         == Run(Translation(stack + [e.op] + Waiting(e.right), out + Postfix(e.left) + Written(e.right)),
                s, i + |Show(e)|)
    decreases e, 0
  {
    hide Run, Step, Waiting, Written, Postfix, Show, Readable, Has;
    var op, l, r := e.op, e.left, e.right;
    var middle := i + |Show(l)|;
    Endings(l);
    BinStands(e, out, out + Postfix(l), s, i);
    ExprIsTranslated(l, stack, out, s, i);
    OperatorStep(l, stack, out, middle, op);
    RunStep(Translation(stack + Waiting(l), out + Written(l)), s, middle,
            Translation(stack + [op], out + Postfix(l)));
    ExprIsTranslated(r, stack + [op], out + Postfix(l), s, middle + 1);
  }

  /** An expression that starts with two brackets makes the translator read in front of its buffer. */
  predicate StartsTwice(text: string) {
    |text| >= 2 && text[0] == '(' && text[1] == '('
  }

  lemma TranslateIsPostfix(e: Expr)
    requires WellFormed(e)
    ensures Translate(Show(e)) == if StartsTwice(Show(e)) then Undefined else Defined(Postfix(e))
  {
    var s := Show(e);
    ShowStarts(e);
    hide Run, Step, Waiting, Written, Postfix, PopAll, Show;
    if StartsTwice(s) {
      TwoBrackets(s);
    } else {
      assert s[0..0 + |s|] == s;
      ExprIsTranslated(e, "", "", s, 0);
      Endings(e);
      var t := Translation("" + Waiting(e), "" + Written(e));
      RunEnds(t, s);
      EndNumberIsBlanked("", Written(e));
      FinalFlushCompletes(e, "", "");
      PopNothing("" + Postfix(e));
      assert "" + Postfix(e) == Postfix(e);
    }
  }

  lemma RunEnds(t: Translation, s: string)
    ensures Run(t, s, |s|) == Defined(t)
  {
  }

  lemma PopNothing(out: string)
    ensures PopAll("", out) == out
  {
  }

  lemma TwoBrackets(s: string)
    requires StartsTwice(s)
    ensures Translate(s) == Undefined
  {
    OpenStep("", "", 0);
    RunStep(Translation("", ""), s, 0, Translation("" + ['('], ""));
    assert Step(Translation("" + ['('], ""), 1, '(') == Undefined;
  }

  // ---------- the evaluator ----------

  /** The machine after the digits of a literal that fits. */
  lemma {:induction false} LiteralIsRead(stack: seq<int>, s: string, i: nat, digits: string)
    requires AllDigits(digits) && Has(s, i, digits)
    ensures NatValue(digits) + '0' as int <= INT_MAX ==>
      EvaluateFrom(Machine(stack, 0), s, i) == EvaluateFrom(Machine(stack, NatValue(digits)), s, i + |digits|)
    ensures NatValue(digits) + '0' as int > INT_MAX && digits != "" ==>
      EvaluateFrom(Machine(stack, 0), s, i) == Overflow
    decreases |digits|
  {
    if digits != "" {
      var last := |digits| - 1;
      var front := digits[..last];
      assert digits == front + [digits[last]];
      HasSplit(s, i, front, [digits[last]]);
      assert s[i + last] == digits[last];
      assert NatValue(digits) == NatValue(front) * 10 + DigitValue(digits[last]);
      hide EvaluateFrom, Has, NatValue;
      NoDigits();
      LiteralIsRead(stack, s, i, front);
      if NatValue(front) + '0' as int <= INT_MAX {
        DigitIsRead(stack, NatValue(front), s, i + last);
      }
    }
  }

  lemma NoDigits()
    ensures NatValue("") == 0
  {
  }

  /** One more digit, with the code of '0' added before it is taken off. */
  lemma DigitIsRead(stack: seq<int>, n: nat, s: string, i: nat)
    requires i < |s| && IsDigit(s[i])
    ensures
      var sum := n * 10 + DigitValue(s[i]);
      EvaluateFrom(Machine(stack, n), s, i) ==
        if sum + '0' as int <= INT_MAX then EvaluateFrom(Machine(stack, sum), s, i + 1) else Overflow
  {
    var sum := n * 10 + DigitValue(s[i]);
    assert AddDigit(n, s[i]) == if sum + '0' as int <= INT_MAX then Value(sum) else Overflow;
    hide AddDigit;
  }

  /** What becomes of the evaluation when an expression ends with `outcome` in front of index `i`. */
  function Continue(outcome: Outcome, stack: seq<int>, s: string, i: nat): Outcome
    requires i <= |s|
  {
    match outcome
    case Value(v) => EvaluateFrom(Machine(stack + [v], 0), s, i)
    case failed => failed
  }

  lemma NumIsEvaluated(digits: string, stack: seq<int>, s: string, i: nat)
    requires digits != "" && AllDigits(digits) && Has(s, i, digits + " ")
    ensures EvaluateFrom(Machine(stack, 0), s, i) == Continue(Meaning(Num(digits)), stack, s, i + |digits| + 1)
  {
    hide EvaluateFrom, NatValue;
    var end := i + |digits|;
    HasSplit(s, i, digits, " ");
    LiteralIsRead(stack, s, i, digits);
    assert s[end] == s[end..end + 1][0] == ' ';
    BlankPushes(stack, NatValue(digits), s, end);
  }

  lemma BlankPushes(stack: seq<int>, n: int, s: string, i: nat)
    requires i < |s| && s[i] == ' '
    ensures EvaluateFrom(Machine(stack, n), s, i) == EvaluateFrom(Machine(stack + [n], 0), s, i + 1)
  {
  }

  /** Where the parts of the postfix form of a binary expression stand. */
  lemma PostfixStands(e: Expr, s: string, i: nat)
    requires e.Bin? && Has(s, i, Postfix(e))
    ensures
      var middle := i + |Postfix(e.left)|;
      var end := middle + |Postfix(e.right)|;
      && Has(s, i, Postfix(e.left)) && Has(s, middle, Postfix(e.right))
      && i + |Postfix(e)| == end + 2 <= |s| && s[end] == e.op && s[end + 1] == ' '
  {
    var l, r, last := Postfix(e.left), Postfix(e.right), [e.op, ' '];
    assert Postfix(e) == l + (r + last);
    HasSplit(s, i, l, r + last);
    HasSplit(s, i + |l|, r, last);
    var end := i + |l| + |r|;
    assert s[end] == s[end..end + 2][0] && s[end + 1] == s[end..end + 2][1];
  }

  /** Running over the postfix form of an expression pushes its value, or ends as its evaluation ends. */
  lemma {:induction false} ExprIsEvaluated(e: Expr, stack: seq<int>, s: string, i: nat)
    requires WellFormed(e) && Has(s, i, Postfix(e))
    ensures EvaluateFrom(Machine(stack, 0), s, i) == Continue(Meaning(e), stack, s, i + |Postfix(e)|)
    decreases e
  {
    hide EvaluateFrom, Apply, Operation, Has, Postfix, WellFormed, Meaning;
    match e {
      case Num(digits) =>
        PartsOfNum(digits);
        NumIsEvaluated(digits, stack, s, i);
      case Paren(inner) =>
        PartsOfParen(inner);
        ExprIsEvaluated(inner, stack, s, i);
      case Bin(op, l, r) =>
        MeaningOfBin(op, l, r);
        var middle := i + |Postfix(l)|;
        var end := middle + |Postfix(r)|;
        PostfixStands(e, s, i);
        ExprIsEvaluated(l, stack, s, i);
        if Meaning(l).Value? {
          var a := Meaning(l).n;
          ExprIsEvaluated(r, stack + [a], s, middle);
          if Meaning(r).Value? {
            OperatorIsApplied(op, stack, a, Meaning(r).n, s, end);
          }
        }
    }
  }

  lemma PartsOfNum(digits: string)
    requires WellFormed(Num(digits))
    ensures digits != "" && AllDigits(digits) && Postfix(Num(digits)) == digits + " "
  {
  }

  lemma PartsOfParen(inner: Expr)
    requires WellFormed(Paren(inner))
    ensures WellFormed(inner) && Postfix(Paren(inner)) == Postfix(inner) && Meaning(Paren(inner)) == Meaning(inner)
  {
  }

  lemma MeaningOfBin(op: char, l: Expr, r: Expr)
    requires WellFormed(Bin(op, l, r))
    ensures IsOperator(op) && WellFormed(l) && WellFormed(r)
    ensures Meaning(Bin(op, l, r)) ==
      if !Meaning(l).Value? then Meaning(l)
      else if !Meaning(r).Value? then Meaning(r)
      else Apply(op, Meaning(l).n, Meaning(r).n)
  {
    hide Apply, Operation;
    if Meaning(l).Value? && Meaning(r).Value? {
      ApplyIsOperation(op, Meaning(l).n, Meaning(r).n);
    }
  }

  lemma OperatorIsApplied(op: char, stack: seq<int>, a: int, b: int, s: string, i: nat)
    requires IsOperator(op) && i + 1 < |s| && s[i] == op && s[i + 1] == ' '
    ensures EvaluateFrom(Machine(stack + [a] + [b], 0), s, i) == Continue(Apply(op, a, b), stack, s, i + 2)
  {
    var m := Machine(stack + [a] + [b], 0);
    assert m.stack[..|m.stack| - 2] == stack;
    if Apply(op, a, b).Value? {
      var v := Apply(op, a, b).n;
      assert Evaluate(m, op) == Going(Machine(stack, v));
      assert Evaluate(Machine(stack, v), ' ') == Going(Machine(stack + [v], 0));
    }
  }

  /** Each blank at the end pushes a 0, and the last loop looks past them. */
  lemma {:induction false} BlanksDoNoHarm(stack: seq<int>, s: string, i: nat)
    requires i <= |s| && forall k :: i <= k < |s| ==> s[k] == ' '
    ensures EvaluateFrom(Machine(stack, 0), s, i) == Value(FirstNonZero(stack))
    decreases |s| - i
  {
    if i < |s| {
      BlanksDoNoHarm(stack + [0], s, i + 1);
      assert (stack + [0])[..|stack|] == stack;
    }
  }

  // ---------- the whole ----------

  /** `calculate_expression` gives every well-formed expression its value, and 0 where that divides by zero. It is
      undefined exactly when an `int` overflows, when the expression starts with two brackets, or when its postfix
      form, of which the length is known, outgrows the buffer. */
  lemma CalculateIsMeaning(e: Expr)
    requires WellFormed(e)
    ensures Calculate(Show(e)) ==
      if StartsTwice(Show(e)) || Digits(e) + 3 * Literals(e) - 2 > 100 then Undefined
      else match Meaning(e)
        case Value(n) => Defined(n)
        case DivisionByZero => Defined(0)
        case _ => Undefined
  {
    TranslateIsPostfix(e);
    PostfixLength(e);
    OutcomeKinds(e);
    hide Translate, Meaning, EvaluateFrom, Postfix, Show;
    if !StartsTwice(Show(e)) && |Postfix(e)| <= BUFFER {
      var s := Postfix(e) + Blanks(BUFFER - |Postfix(e)|);
      assert s[0..|Postfix(e)|] == Postfix(e);
      ExprIsEvaluated(e, [], s, 0);
      if Meaning(e).Value? {
        BlanksDoNoHarm([] + [Meaning(e).n], s, |Postfix(e)|);
        OneOperand(Meaning(e).n);
      }
    }
  }

  lemma OneOperand(n: int)
    ensures FirstNonZero([] + [n]) == n
  {
    assert ([] + [n])[..0] == [];
  }

  /** A well-formed expression never leaves an operator without operands. */
  lemma {:induction false} OutcomeKinds(e: Expr)
    requires WellFormed(e)
    ensures Meaning(e).Value? || Meaning(e).DivisionByZero? || Meaning(e).Overflow?
  {
    match e {
      case Num(_) =>
      case Bin(_, l, r) =>
        OutcomeKinds(l);
        OutcomeKinds(r);
      case Paren(inner) =>
        OutcomeKinds(inner);
    }
  }

  /** In a product with 1, no expression starts the text. */
  function Product(e: Expr): (p: Expr)
    requires WellFormed(e)
    ensures WellFormed(p) && Show(p) == "1*(" + Show(e) + ")" && Postfix(p) == "1 " + Postfix(e) + "* "
  {
    var p := Bin('*', Num("1"), Paren(e));
    assert Show(p) == "1" + ['*'] + ("(" + Show(e) + ")");
    p
  }

  lemma ProductIsTranslated(e: Expr)
    requires WellFormed(e)
    ensures Translate("1*(" + Show(e) + ")") == Defined("1 " + Postfix(e) + "* ")
  {
    hide Translate, Show, Postfix, Product;
    TranslateIsPostfix(Product(e));
  }

  lemma SameMiddle(a: string, b: string, c: string, d: string)
    requires a + b + d == a + c + d
    ensures b == c
  {
    assert (a + b + d)[|a|..|a| + |b|] == b && (a + c + d)[|a|..|a| + |c|] == c;
  }

  /** The value belongs to the text: two trees that print alike mean the same. */
  lemma MeaningBelongsToText(e: Expr, f: Expr)
    requires WellFormed(e) && WellFormed(f) && Show(e) == Show(f)
    ensures Postfix(e) == Postfix(f) && Meaning(e) == Meaning(f)
  {
    hide Translate, Show, Postfix, Meaning;
    ProductIsTranslated(e);
    ProductIsTranslated(f);
    SameMiddle("1 ", Postfix(e), Postfix(f), "* ");
    PostfixIsEvaluated(e);
    PostfixIsEvaluated(f);
  }

  lemma PostfixIsEvaluated(e: Expr)
    requires WellFormed(e)
    ensures EvaluateFrom(Machine([], 0), Postfix(e), 0) == Meaning(e)
  {
    hide Postfix, Meaning, EvaluateFrom;
    var s := Postfix(e);
    assert s[0..|s|] == s;
    ExprIsEvaluated(e, [], s, 0);
    if Meaning(e).Value? {
      BlanksDoNoHarm([] + [Meaning(e).n], s, |s|);
      OneOperand(Meaning(e).n);
    }
  }
}
