/** The parser reads exactly the texts of the grammar, each as what it means. */
module JsonReading {
  import opened Wrappers
  import opened Texts
  import opened Chars
  import opened JsonValue
  import opened JsonSyntax
  import opened JsonGrammar
  import Utf8
  import R = JsonRoundTrip

  // ---------- characters and digits ----------

  lemma BlankIsSpace(s: string)
    ensures IsBlank(s) <==> AllSpaces(s)
  {
    assert forall i :: 0 <= i < |s| ==> (IsSpace(s[i]) <==> s[i] as int == 32 || 9 <= s[i] as int <= 13);
  }

  lemma {:induction false} DecimalIsValue(s: string)
    ensures IsDecimal(s) <==> AllDigits(s)
    ensures IsDecimal(s) ==> Decimal(s) == NatValue(s)
  {
    if s != "" {
      var front := s[..|s| - 1];
      DecimalIsValue(front);
      assert s == front + [s[|s| - 1]];
    }
  }

  /** The values of the hexadecimal digits. */
  lemma NibbleIsValue(c: char)
    ensures Nibble(c) >= 0 <==> IsHexDigit(c)
    ensures IsHexDigit(c) ==> Nibble(c) == HexValue(c)
  {
  }

  lemma CodeIsPrefix(a: char, b: char, c: char, d: char)
    requires Nibble(a) >= 0
    ensures HexPrefix([a, b, c, d]) == Code(a, b, c, d)
  {
    var t := [a, b, c, d];
    NibbleIsValue(a);
    NibbleIsValue(b);
    NibbleIsValue(c);
    NibbleIsValue(d);
    hide Nibble, HexValue, IsHexDigit;
    assert t[1..] == [b, c, d] && [b, c, d][1..] == [c, d] && [c, d][1..] == [d] && [d][1..] == "";
    var x := HexValue(a);
    assert HexPrefix(t) == HexPrefixFrom([b, c, d], x);
    if IsHexDigit(b) {
      var y := x * 16 + HexValue(b);
      assert HexPrefixFrom([b, c, d], x) == HexPrefixFrom([c, d], y);
      if IsHexDigit(c) {
        var z := y * 16 + HexValue(c);
        assert HexPrefixFrom([c, d], y) == HexPrefixFrom([d], z);
        if IsHexDigit(d) {
          assert HexPrefixFrom([d], z) == HexPrefixFrom("", z * 16 + HexValue(d));
        }
      }
    }
  }

  // ---------- strings ----------

  /** What `ParseUnicode` makes of the five characters from `p + 1` on. */
  lemma UnicodeIsRead(s: string, p: nat)
    requires p < |s|
    ensures ParseUnicode(s, p) ==
      if p + 5 < |s| && Nibble(s[p + 2]) >= 0 && !(0xD800 <= Code(s[p + 2], s[p + 3], s[p + 4], s[p + 5]) <= 0xDBFF)
      then Success(Utf8.Encode(Code(s[p + 2], s[p + 3], s[p + 4], s[p + 5])), p + 5)
      else Failure
  {
    hide Utf8.Encode, Utf8.Combine;
    if p + 5 < |s| {
      var a, b, c, d := s[p + 2], s[p + 3], s[p + 4], s[p + 5];
      NibbleIsValue(a);
      if Nibble(a) >= 0 {
        assert s[p + 2..p + 6] == [a, b, c, d];
        CodeIsPrefix(a, b, c, d);
        if 0xD800 <= Code(a, b, c, d) <= 0xDBFF {
          FourDigitsNeeded(a, b, c, d);
          assert d != '\\';
        }
      }
    }
  }

  /** A code as large as that of a surrogate takes four digits. */
  lemma FourDigitsNeeded(a: char, b: char, c: char, d: char)
    requires Nibble(a) >= 0 && Code(a, b, c, d) >= 0x1000
    ensures Nibble(d) >= 0
  {
    assert Nibble(a) <= 15 && Nibble(b) <= 15 && Nibble(c) <= 15;
    hide Nibble;
  }

  lemma SimpleIsRead(c: char)
    ensures SimpleCode(c) >= 0 <==> SimpleEscape(c) != ""
    ensures SimpleCode(c) >= 0 ==> SimpleEscape(c) == [SimpleCode(c) as char] && c != 'u'
  {
  }

  lemma ItselfIsRead(x: char, s: string, p: nat, sofar: string)
    requires p < |s| && s[p] == x && x != '"' && x != '\\'
    ensures ParseChars(s, p, sofar) == ParseChars(s, p + 1, sofar + [x])
  {
    hide ParseEscape;
  }

  lemma EscapeIsTaken(s: string, p: nat, sofar: string)
    requires p < |s| && s[p] == '\\'
    ensures
      var r := ParseEscape(s, p + 1);
      ParseChars(s, p, sofar) == if r.Failure? then Failure else ParseChars(s, r.pos, sofar + r.value)
  {
    hide ParseEscape;
  }

  lemma EscapeKinds(s: string, p: nat)
    requires p < |s|
    ensures ParseEscape(s, p) ==
      if s[p] == 'u' then ParseUnicode(s, p)
      else if SimpleCode(s[p]) >= 0 then Success([SimpleCode(s[p]) as char], p + 1)
      else Failure
  {
    SimpleIsRead(s[p]);
    hide ParseUnicode, SimpleEscape, SimpleCode;
  }

  lemma CharIsRead(c: CharTree, next: char, s: string, p: nat, sofar: string)
    requires ProperChar(c, next) && Has(s, p, ShowChar(c) + [next])
    ensures p + |ShowChar(c)| < |s|
    ensures ParseChars(s, p, sofar) == ParseChars(s, p + |ShowChar(c)|, sofar + CharMeaning(c, next))
  {
    hide Has, ParseChars, ParseEscape, ParseUnicode, Utf8.Encode, Code, Nibble, SimpleCode;
    var shown := ShowChar(c) + [next];
    HasEnds(s, p, shown);
    HasAt(s, p, shown, 0);
    HasAt(s, p, shown, 1);
    match c {
      case Itself(x) => ItselfIsRead(x, s, p, sofar);
      case Simple(x) =>
        NotTheU();
        EscapeIsTaken(s, p, sofar);
        EscapeKinds(s, p + 1);
      case Unicode(d0, d1, d2, d3) =>
        HasAt(s, p, shown, 3);
        HasAt(s, p, shown, 4);
        HasAt(s, p, shown, 5);
        HasAt(s, p, shown, 6);
        EscapeIsTaken(s, p, sofar);
        EscapeKinds(s, p + 1);
        UnicodeIsRead(s, p + 1);
    }
  }

  lemma NotTheU()
    ensures SimpleCode('u') == -1
  {
  }

  lemma FirstCharStands(chars: seq<CharTree>, s: string, p: nat)
    requires chars != [] && Has(s, p, ShowChars(chars))
    ensures
      var shown, rest := ShowChar(chars[0]), ShowChars(chars[1..]);
      && Has(s, p, shown + [rest[0]]) && Has(s, p + |shown|, rest)
      && |ShowChars(chars)| == |shown| + |rest|
  {
    var shown, rest := ShowChar(chars[0]), ShowChars(chars[1..]);
    assert ShowChars(chars) == shown + rest;
    hide ShowChars, ShowChar, Has;
    HasSplit(s, p, shown, rest);
    HasFirst(s, p, shown, rest);
  }

  lemma {:induction false} CharsAreRead(chars: seq<CharTree>, s: string, p: nat, sofar: string)
    requires ProperChars(chars) && Has(s, p, ShowChars(chars))
    ensures ParseChars(s, p, sofar) == Success(sofar + StringMeaning(chars), p + |ShowChars(chars)|)
    decreases |chars|
  {
    if chars == [] {
      HasAt(s, p, "\"", 0);
      assert sofar + "" == sofar;
    } else {
      var c, next, rest := chars[0], ShowChars(chars[1..])[0], chars[1..];
      assert ProperChar(c, next) && ProperChars(rest);
      var meaning := CharMeaning(c, next);
      assert StringMeaning(chars) == meaning + StringMeaning(rest);
      hide ShowChars, Has, ShowChar, ProperChar, ProperChars, ParseChars, CharMeaning, StringMeaning;
      FirstCharStands(chars, s, p);
      CharIsRead(c, next, s, p, sofar);
      CharsAreRead(rest, s, p + |ShowChar(c)|, sofar + meaning);
      assert sofar + meaning + StringMeaning(rest) == sofar + (meaning + StringMeaning(rest));
    }
  }

  lemma StringTreeIsRead(chars: seq<CharTree>, s: string, p: nat)
    requires ProperChars(chars) && Has(s, p, ShowString(chars))
    ensures p < |s| && s[p] == '"'
    ensures ParseString(s, p) == Success(StringMeaning(chars), p + |ShowString(chars)|)
  {
    HasSplit(s, p, "\"", ShowChars(chars));
    HasAt(s, p, "\"", 0);
    CharsAreRead(chars, s, p + 1, "");
    assert "" + StringMeaning(chars) == StringMeaning(chars);
  }

  // ---------- numbers ----------

  lemma {:induction false} DigitsAreSkipped(s: string, p: nat, digits: string)
    requires Has(s, p, digits) && IsDecimal(digits) && NoDigit(s, p + |digits|)
    ensures SkipDigits(s, p) == p + |digits|
    decreases |digits|
  {
    if digits != "" {
      assert digits == [digits[0]] + digits[1..];
      HasSplit(s, p, [digits[0]], digits[1..]);
      HasAt(s, p, digits, 0);
      DigitsAreSkipped(s, p + 1, digits[1..]);
    }
  }

  lemma FractionIsSkipped(fraction: Option<string>, s: string, p: nat)
    requires Has(s, p, ShowFraction(fraction)) && (fraction.Some? ==> IsDecimal(fraction.value))
    requires FractionStops(fraction, s, p + |ShowFraction(fraction)|)
    ensures FractionEnd(s, p) == p + |ShowFraction(fraction)|
  {
    match fraction {
      case None =>
      case Some(digits) =>
        HasSplit(s, p, ".", digits);
        HasAt(s, p, ".", 0);
        DigitsAreSkipped(s, p + 1, digits);
    }
  }

  lemma ExponentIsSkipped(exponent: Option<Exponent>, s: string, p: nat)
    requires Has(s, p, ShowExponent(exponent)) && (exponent.Some? ==> ProperExponent(exponent.value))
    requires ExponentStops(exponent, s, p + |ShowExponent(exponent)|)
    ensures ExponentEnd(s, p) == p + |ShowExponent(exponent)|
  {
    match exponent {
      case None =>
      case Some(e) =>
        hide SkipDigits, IsDecimal, Has;
        HasThree(s, p, [e.letter], e.sign, e.digits);
        HasAt(s, p, [e.letter], 0);
        SignStands(e, s, p + 1);
        DigitsAreSkipped(s, p + 1 + |e.sign|, e.digits);
    }
  }

  lemma SignStands(e: Exponent, s: string, p: nat)
    requires ProperExponent(e) && Has(s, p, e.sign) && Has(s, p + |e.sign|, e.digits)
    requires p < |s| && e.sign == "" && e.digits == "" ==> s[p] != '+' && s[p] != '-'
    ensures p < |s| && (s[p] == '+' || s[p] == '-') <==> e.sign != ""
  {
    if e.sign != "" {
      HasAt(s, p, e.sign, 0);
    } else if e.digits != "" {
      HasAt(s, p, e.digits, 0);
    }
  }

  function WholeAt(n: Number, p: nat): nat
  {
    if n.minus then p + 1 else p
  }

  function FractionAt(n: Number, p: nat): nat
  {
    WholeAt(n, p) + |n.whole|
  }

  function ExponentAt(n: Number, p: nat): nat
  {
    FractionAt(n, p) + |ShowFraction(n.fraction)|
  }

  lemma NumberTextIs(n: Number)
    ensures ShowNumber(n)
         == (if n.minus then "-" else "") + (n.whole + (ShowFraction(n.fraction) + ShowExponent(n.exponent)))
  {
  }

  lemma NumberStands(n: Number, s: string, p: nat)
    requires Has(s, p, ShowNumber(n))
    ensures n.minus ==> p < |s| && s[p] == '-'
    ensures Has(s, WholeAt(n, p), n.whole) && Has(s, FractionAt(n, p), ShowFraction(n.fraction))
    ensures Has(s, ExponentAt(n, p), ShowExponent(n.exponent))
    ensures p + |ShowNumber(n)| == ExponentAt(n, p) + |ShowExponent(n.exponent)| <= |s|
  {
    hide ShowFraction, ShowExponent, ShowNumber, Has;
    var minus, fraction, exponent := if n.minus then "-" else "", ShowFraction(n.fraction), ShowExponent(n.exponent);
    NumberTextIs(n);
    HasFour(s, p, minus, n.whole, fraction, exponent);
    if n.minus {
      HasAt(s, p, "-", 0);
    }
    HasEnds(s, ExponentAt(n, p), exponent);
  }

  /** What stands behind the digits of the fraction, or behind the whole number if there is none. */
  lemma BehindFraction(n: Number, s: string, q: nat)
    requires ProperNumber(n) && Has(s, q, ShowExponent(n.exponent))
    requires NumberStops(n, s, q + |ShowExponent(n.exponent)|)
    ensures FractionStops(n.fraction, s, q)
  {
    if n.exponent.Some? {
      HasAt(s, q, ShowExponent(n.exponent), 0);
    }
  }

  lemma BehindWhole(n: Number, s: string, q: nat)
    requires ProperNumber(n) && Has(s, q, ShowFraction(n.fraction))
    requires FractionStops(n.fraction, s, q + |ShowFraction(n.fraction)|)
    ensures NoDigit(s, q)
  {
    if n.fraction.Some? {
      HasAt(s, q, ShowFraction(n.fraction), 0);
    }
  }

  lemma PartsStop(n: Number, s: string, p: nat)
    requires ProperNumber(n) && Has(s, p, ShowNumber(n)) && NumberStops(n, s, p + |ShowNumber(n)|)
    ensures ExponentStops(n.exponent, s, ExponentAt(n, p) + |ShowExponent(n.exponent)|)
    ensures FractionStops(n.fraction, s, FractionAt(n, p) + |ShowFraction(n.fraction)|)
    ensures NoDigit(s, WholeAt(n, p) + |n.whole|)
  {
    hide ShowNumber, Has, ShowFraction, ShowExponent, IsDecimal, NoDigit, FractionStops, ExponentStops,
      ProperNumber;
    NumberStands(n, s, p);
    BehindFraction(n, s, ExponentAt(n, p));
    BehindWhole(n, s, FractionAt(n, p));
  }

  lemma NumberIsSkipped(n: Number, s: string, p: nat)
    requires ProperNumber(n) && Has(s, p, ShowNumber(n)) && NumberStops(n, s, p + |ShowNumber(n)|)
    ensures WholeAt(n, p) <= FractionAt(n, p) <= ExponentAt(n, p) <= |s|
    ensures SkipDigits(s, WholeAt(n, p)) == FractionAt(n, p) && FractionEnd(s, FractionAt(n, p)) == ExponentAt(n, p)
    ensures ExponentEnd(s, ExponentAt(n, p)) == p + |ShowNumber(n)|
  {
    hide ShowNumber, NumberStops, Has, SkipDigits, FractionEnd, ExponentEnd, ShowFraction, ShowExponent, IsDecimal,
      NoDigit, FractionStops, ExponentStops, ProperExponent;
    PartsStop(n, s, p);
    NumberStands(n, s, p);
    DigitsAreSkipped(s, WholeAt(n, p), n.whole);
    FractionIsSkipped(n.fraction, s, FractionAt(n, p));
    ExponentIsSkipped(n.exponent, s, ExponentAt(n, p));
  }

  /** Where a number starts. */
  lemma NumberStarts(n: Number, s: string, p: nat)
    requires ProperNumber(n) && Has(s, p, ShowNumber(n))
    ensures p < |s| && (if n.minus then s[p] == '-' else IsDigit(s[p]))
  {
    NumberStands(n, s, p);
    if !n.minus {
      HasAt(s, p, n.whole, 0);
    }
  }

  lemma PartLengths(n: Number)
    ensures |ShowFraction(n.fraction)| == if n.fraction.Some? then 1 + |n.fraction.value| else 0
    ensures n.exponent.Some? <==> ShowExponent(n.exponent) != ""
  {
  }

  /** `ParseNumber`, given where the parts end. */
  lemma NumberOfParts(s: string, p: nat, start: nat, whole: nat, fraction: nat, end: nat)
    requires p < |s| && (IsDigit(s[p]) || s[p] == '-') && start == AfterMinus(s, p)
    requires SkipDigits(s, start) == whole && FractionEnd(s, whole) == fraction && ExponentEnd(s, fraction) == end
    requires whole <= |s| && fraction <= |s|
    ensures p <= start <= whole <= fraction <= end <= |s|
    ensures ParseNumber(s, p) ==
      if end != whole then
        if whole > start || fraction > whole + 1 then Success(Double(s[p..end]), end) else Failure
      else if whole == start then Failure
      else
        var n: int := NatValue(s[start..whole]);
        var signed := if s[p] == '-' then -n else n;
        Success(if -2147483648 <= signed <= 2147483647 then Int(signed) else Double(s[p..end]), end)
  {
    hide NatValue;
  }

  /** The cases of `NumberOfParts` are those of the grammar. */
  lemma NumberHasParts(n: Number, s: string, p: nat, start: nat, whole: nat, fraction: nat, end: nat)
    requires ProperNumber(n) && start <= whole == start + |n.whole| && p <= end <= |s| && whole <= |s|
    requires fraction == whole + |ShowFraction(n.fraction)| && end == fraction + |ShowExponent(n.exponent)|
    requires s[start..whole] == n.whole && s[p..end] == ShowNumber(n)
    ensures AllDigits(n.whole) && (end == whole ==> whole > start)
    ensures end != whole ==> whole > start || fraction > whole + 1
    ensures
      var size: int := NatValue(n.whole);
      var signed := if n.minus then -size else size;
      NumberMeaning(n) ==
        if end == whole && -2147483648 <= signed <= 2147483647 then Int(signed) else Double(s[p..end])
  {
    hide ShowNumber, NatValue, Decimal, IsDecimal, ShowFraction, ShowExponent;
    DecimalIsValue(n.whole);
    PartLengths(n);
  }

  lemma NumberIsRead(n: Number, s: string, p: nat)
    requires ProperNumber(n) && Has(s, p, ShowNumber(n)) && NumberStops(n, s, p + |ShowNumber(n)|)
    ensures p < |s| && (IsDigit(s[p]) || s[p] == '-')
    ensures ParseNumber(s, p) == Success(NumberMeaning(n), p + |ShowNumber(n)|)
  {
    hide ShowNumber, SkipDigits, FractionEnd, ExponentEnd, NatValue, Decimal, ShowFraction, ShowExponent, NumberStops,
      IsDecimal, ParseNumber;
    var start, whole, fraction, end := WholeAt(n, p), FractionAt(n, p), ExponentAt(n, p), p + |ShowNumber(n)|;
    NumberStarts(n, s, p);
    assert start == AfterMinus(s, p);
    NumberStands(n, s, p);
    assert s[start..whole] == n.whole && s[p..end] == ShowNumber(n);
    hide Has, AfterMinus;
    NumberIsSkipped(n, s, p);
    hide WholeAt, FractionAt, ExponentAt;
    NumberOfParts(s, p, start, whole, fraction, end);
    NumberHasParts(n, s, p, start, whole, fraction, end);
  }

  // ---------- values ----------

  /** Blank text in front of something else is skipped up to that. */
  lemma BlankIsSkipped(s: string, p: nat, blank: string)
    requires Has(s, p, blank) && IsBlank(blank)
    ensures p + |blank| <= |s| && SkipSpace(s, p) == SkipSpace(s, p + |blank|)
    ensures p + |blank| < |s| && !IsSpace(s[p + |blank|]) ==> SkipSpace(s, p) == p + |blank|
  {
    BlankIsSpace(blank);
    R.SkipOver(s, p, blank);
  }

  /** What `parseValue` does, when no white space is in front. */
  lemma ValueStarts(s: string, p: nat)
    requires p < |s| && !IsSpace(s[p])
    ensures ParseValue(s, p) ==
      match s[p]
      case 'n' => ParseWord(s, p, "null", Null)
      case 't' => ParseBool(s, p)
      case 'f' => ParseBool(s, p)
      case '"' => ParseStringValue(s, p)
      case '[' => ParseArray(s, p)
      case '{' => ParseObject(s, p)
      case c => if IsDigit(c) || c == '-' then ParseNumber(s, p) else Failure
  {
    hide ParseWord, ParseBool, ParseStringValue, ParseArray, ParseObject, ParseNumber;
  }

  /** The first character of a value is neither white space nor a closing bracket. */
  predicate Opens(c: char) {
    c in "ntf\"[{-" || IsDigit(c)
  }

  lemma NumberOpens(n: Number)
    requires ProperNumber(n)
    ensures ShowNumber(n) != "" && (ShowNumber(n)[0] == '-' || IsDigit(ShowNumber(n)[0]))
  {
    hide ShowFraction, ShowExponent;
  }

  lemma TreeOpens(t: Tree)
    requires Proper(t)
    ensures Show(t) != "" && Opens(Show(t)[0])
  {
    hide ShowItems, ShowFields, ShowNumber, ShowChars;
    if t.NumberTree? {
      NumberOpens(t.n);
    }
  }

  lemma TreeStands(t: Tree, s: string, p: nat)
    requires Proper(t) && Has(s, p, Show(t))
    ensures p < |s| && Opens(s[p]) && s[p] == Show(t)[0] && !IsSpace(s[p]) && s[p] != ']' && SkipSpace(s, p) == p
  {
    hide Show, Proper;
    TreeOpens(t);
    HasAt(s, p, Show(t), 0);
  }

  /** A character that ends every number. */
  lemma EndsValue(t: Tree, s: string, p: nat)
    requires p < |s| ==> IsBlank([s[p]]) || s[p] == ',' || s[p] == ']' || s[p] == '}'
    ensures Stops(t, s, p)
  {
    if p < |s| && IsBlank([s[p]]) {
      assert [s[p]][0] as int == 32 || 9 <= [s[p]][0] as int <= 13;
    }
  }

  /** Between a value and the sign behind it there may be white space. */
  lemma AfterValue(t: Tree, s: string, p: nat, after: string, sign: char)
    requires Has(s, p, after + [sign]) && IsBlank(after) && (sign == ',' || sign == ']' || sign == '}')
    ensures Stops(t, s, p) && p <= |s|
    ensures SkipSpace(s, p) == p + |after| < |s| && s[p + |after|] == sign
  {
    hide Stops, Has;
    HasSplit(s, p, after, [sign]);
    HasAt(s, p + |after|, [sign], 0);
    BlankIsSkipped(s, p, after);
    if after != "" {
      HasAt(s, p, after, 0);
      assert IsBlank([after[0]]);
    }
    EndsValue(t, s, p);
  }

  // ---------- reading trees ----------

  lemma {:induction false} TreeIsRead(t: Tree, s: string, p: nat)
    requires Proper(t) && Has(s, p, Show(t)) && Stops(t, s, p + |Show(t)|)
    ensures p <= |s| && ParseValue(s, p) == Success(Meaning(t), p + |Show(t)|)
    decreases t
  {
    hide ParseValue, ParseNumber, ParseArray, ParseObject, ParseString, SkipSpace, ShowNumber, ShowChars, ShowItems,
      ShowFields, ProperNumber, ProperChars, ProperItems, ProperFields, StringMeaning, NumberMeaning, NumberStops,
      ItemsMeaning, FieldsMeaning, IsSpace;
    TreeStands(t, s, p);
    ValueStarts(s, p);
    match t {
      case NullTree =>
      case BoolTree(b) =>
        if !b {
          assert !Has(s, p, "true") by { HasAt(s, p, "false", 0); }
        }
      case NumberTree(n) => NumberIsRead(n, s, p);
      case StringTree(chars) => StringTreeIsRead(chars, s, p);
      case EmptyArray(blank) => EmptyArrayIsRead(blank, s, p);
      case ArrayTree(items) => ArrayIsRead(items, s, p);
      case EmptyObject(blank) => EmptyObjectIsRead(blank, s, p);
      case ObjectTree(fields) => ObjectIsRead(fields, s, p);
    }
  }

  lemma EmptyArrayIsRead(blank: string, s: string, p: nat)
    requires IsBlank(blank) && Has(s, p, "[" + (blank + "]"))
    ensures p <= |s| && ParseArray(s, p) == Success(Array([]), p + |blank| + 2)
  {
    hide ParseElements, IsBlank, SkipSpace, Has, IsSpace;
    HasThree(s, p, "[", blank, "]");
    HasEnds(s, p, "[");
    HasAt(s, p + 1 + |blank|, "]", 0);
    assert !IsSpace(']') by { NoSpaces(); }
    BlankIsSkipped(s, p + 1, blank);
  }

  lemma EmptyObjectIsRead(blank: string, s: string, p: nat)
    requires IsBlank(blank) && Has(s, p, "{" + (blank + "}"))
    ensures p <= |s| && ParseObject(s, p) == Success(Object(map[]), p + |blank| + 2)
  {
    hide ParseFields, IsBlank, SkipSpace, Has, IsSpace;
    HasThree(s, p, "{", blank, "}");
    HasEnds(s, p, "{");
    HasAt(s, p + 1 + |blank|, "}", 0);
    assert !IsSpace('}') by { NoSpaces(); }
    BlankIsSkipped(s, p + 1, blank);
  }

  lemma NoSpaces()
    ensures !IsSpace(']') && !IsSpace('}')
  {
  }

  lemma {:induction false} ArrayIsRead(items: Items, s: string, p: nat)
    requires ProperItems(items) && Has(s, p, "[" + ShowItems(items))
    ensures p <= |s| && ParseArray(s, p) == Success(Array(ItemsMeaning(items)), p + 1 + |ShowItems(items)|)
    decreases items, 1
  {
    hide ParseElements, ProperItems, ShowItems, SkipSpace, ItemsMeaning;
    HasSplit(s, p, "[", ShowItems(items));
    ItemsAreRead(items, s, p + 1, []);
    assert [] + ItemsMeaning(items) == ItemsMeaning(items);
  }

  lemma {:induction false} ObjectIsRead(fields: Fields, s: string, p: nat)
    requires ProperFields(fields) && Has(s, p, "{" + ShowFields(fields))
    ensures p <= |s| && ParseObject(s, p) == Success(Object(FieldsMeaning(fields, map[])), p + 1 + |ShowFields(fields)|)
    decreases fields, 2
  {
    hide ParseFields, ProperFields, ShowFields, SkipSpace, FieldsMeaning;
    HasSplit(s, p, "{", ShowFields(fields));
    FieldsAreRead(fields, s, p + 1, map[]);
  }

  /** The sign behind an item, and what follows it. */
  function Tail(items: Items): string {
    if items.LastItem? then "]" else "," + ShowItems(items.rest)
  }

  function TailSign(items: Items): char {
    if items.LastItem? then ']' else ','
  }

  lemma ItemTextIs(items: Items)
    ensures ShowItems(items) == items.before + (Show(items.tree) + (items.after + Tail(items)))
    ensures Tail(items) != "" && Tail(items)[0] == TailSign(items)
    ensures items.NextItem? ==> Tail(items) == "," + ShowItems(items.rest)
  {
    hide Show;
  }

  lemma ItemStands(items: Items, s: string, p: nat)
    requires Has(s, p, ShowItems(items))
    ensures
      var start := p + |items.before|;
      var end := start + |Show(items.tree)|;
      && Has(s, p, items.before) && Has(s, start, Show(items.tree)) && Has(s, end, items.after + [TailSign(items)])
      && (items.NextItem? ==> Has(s, end + |items.after| + 1, ShowItems(items.rest)))
      && p + |ShowItems(items)| == end + |items.after| + |Tail(items)|
  {
    hide ShowItems, Show, Has, Tail, TailSign;
    var before, tree, after, tail := items.before, Show(items.tree), items.after, Tail(items);
    ItemTextIs(items);
    HasFour(s, p, before, tree, after, tail);
    HasThree(s, p, before, tree, after + tail);
    HasFirst(s, p + |before| + |tree|, after, tail);
    if items.NextItem? {
      HasSplit(s, p + |before| + |tree| + |after|, ",", ShowItems(items.rest));
    }
  }

  lemma ItemParts(items: Items)
    requires ProperItems(items)
    ensures IsBlank(items.before) && Proper(items.tree) && IsBlank(items.after)
    ensures items.NextItem? ==> ProperItems(items.rest)
    ensures ItemsMeaning(items)
         == [Meaning(items.tree)] + (if items.LastItem? then [] else ItemsMeaning(items.rest))
  {
  }

  function ItemAt(items: Items, p: nat): nat {
    p + |items.before|
  }

  function ItemEnd(items: Items, p: nat): nat {
    ItemAt(items, p) + |Show(items.tree)|
  }

  /** Where the parser gets to in front of an item ... */
  lemma ItemFront(items: Items, s: string, p: nat)
    requires ProperItems(items) && Has(s, p, ShowItems(items))
    ensures Has(s, ItemAt(items, p), Show(items.tree))
    ensures p <= |s| && SkipSpace(s, p) == ItemAt(items, p) < |s| && s[ItemAt(items, p)] != ']'
  {
    hide ProperItems, Proper, ShowItems, Show, SkipSpace, IsBlank, Has, IsSpace, Tail, TailSign, Opens;
    ItemParts(items);
    ItemStands(items, s, p);
    TreeStands(items.tree, s, ItemAt(items, p));
    BlankIsSkipped(s, p, items.before);
  }

  /** ... and behind it. */
  lemma ItemBack(items: Items, s: string, p: nat)
    requires ProperItems(items) && Has(s, p, ShowItems(items))
    ensures ItemEnd(items, p) <= |s| && Stops(items.tree, s, ItemEnd(items, p))
    ensures SkipSpace(s, ItemEnd(items, p)) == ItemEnd(items, p) + |items.after| < |s|
    ensures s[ItemEnd(items, p) + |items.after|] == TailSign(items)
  {
    hide ProperItems, Proper, ShowItems, Show, SkipSpace, IsBlank, Has, Stops, Tail;
    ItemParts(items);
    ItemStands(items, s, p);
    hide ItemAt;
    AfterValue(items.tree, s, ItemEnd(items, p), items.after, TailSign(items));
  }

  function NextAt(items: Items, p: nat): nat {
    ItemEnd(items, p) + |items.after| + 1
  }

  lemma RestStands(items: Items, s: string, p: nat)
    requires Has(s, p, ShowItems(items))
    ensures NextAt(items, p) <= |s|
    ensures items.NextItem? ==> Has(s, NextAt(items, p), ShowItems(items.rest))
    ensures p + |ShowItems(items)| == NextAt(items, p) + (if items.LastItem? then 0 else |ShowItems(items.rest)|)
  {
    hide ShowItems, Show;
    ItemStands(items, s, p);
  }

  /** One turn of the loop, given that the value is read. */
  lemma ItemTurn(items: Items, v: Value, s: string, p: nat, sofar: seq<Value>)
    requires ProperItems(items) && Has(s, p, ShowItems(items)) && ItemAt(items, p) <= |s|
    requires ParseValue(s, ItemAt(items, p)) == Success(v, ItemEnd(items, p))
    ensures NextAt(items, p) <= |s|
    ensures ParseElements(s, ItemAt(items, p), sofar) ==
      if items.LastItem? then Success(Array(sofar + [v]), NextAt(items, p))
      else ParseElements(s, SkipSpace(s, NextAt(items, p)), sofar + [v])
  {
    hide ParseElements, ParseValue, ProperItems, ShowItems, SkipSpace, Has, Stops, ItemAt, ItemEnd;
    ItemBack(items, s, p);
    ElementsStep(s, ItemAt(items, p), sofar);
  }

  lemma {:induction false} ItemsAreRead(items: Items, s: string, p: nat, sofar: seq<Value>)
    requires ProperItems(items) && Has(s, p, ShowItems(items))
    ensures p <= |s| && SkipSpace(s, p) < |s| && s[SkipSpace(s, p)] != ']'
    ensures ParseElements(s, SkipSpace(s, p), sofar)
         == Success(Array(sofar + ItemsMeaning(items)), p + |ShowItems(items)|)
    decreases items, 0
  {
    hide ParseElements, ParseValue, ProperItems, Proper, ShowItems, SkipSpace, IsBlank, Has, Meaning, ItemsMeaning,
      Stops;
    ItemParts(items);
    var v := Meaning(items.tree);
    ItemFront(items, s, p);
    assert Stops(items.tree, s, ItemAt(items, p) + |Show(items.tree)|) by { ItemBack(items, s, p); }
    TreeIsRead(items.tree, s, ItemAt(items, p));
    hide Show, ItemAt;
    ItemTurn(items, v, s, p, sofar);
    hide ItemEnd;
    RestStands(items, s, p);
    if items.NextItem? {
      ItemsAreRead(items.rest, s, NextAt(items, p), sofar + [v]);
      assert sofar + [v] + ItemsMeaning(items.rest) == sofar + ([v] + ItemsMeaning(items.rest));
    } else {
      assert [v] + [] == [v];
    }
  }

  function FieldTail(fields: Fields): string {
    if fields.LastField? then "}" else "," + ShowFields(fields.rest)
  }

  function FieldSign(fields: Fields): char {
    if fields.LastField? then '}' else ','
  }

  /** Where the parts of a field stand: the key, the colon, the value and its end. */
  function ColonAt(fields: Fields, p: nat): nat {
    p + |fields.before| + |ShowString(fields.key)| + |fields.gap|
  }

  function ValueAt(fields: Fields, p: nat): nat {
    ColonAt(fields, p) + 1 + |fields.space|
  }

  /** The text behind the colon. */
  function Behind(fields: Fields): string {
    fields.space + (Show(fields.tree) + (fields.after + FieldTail(fields)))
  }

  lemma FieldTextIs(fields: Fields)
    ensures ShowFields(fields)
         == fields.before + (ShowString(fields.key) + (fields.gap + (":" + Behind(fields))))
  {
    hide Show, ShowString;
  }

  lemma KeyStands(fields: Fields, s: string, p: nat)
    requires Has(s, p, ShowFields(fields))
    ensures
      var start := p + |fields.before|;
      && Has(s, p, fields.before) && Has(s, start, ShowString(fields.key))
      && Has(s, start + |ShowString(fields.key)|, fields.gap)
    ensures Has(s, ColonAt(fields, p), ":") && Has(s, ColonAt(fields, p) + 1, Behind(fields))
    ensures p + |ShowFields(fields)| == ColonAt(fields, p) + 1 + |Behind(fields)|
  {
    hide ShowString, ShowFields, Behind, Has;
    var key, behind := ShowString(fields.key), Behind(fields);
    FieldTextIs(fields);
    HasFour(s, p, fields.before, key, fields.gap, ":" + behind);
    HasSplit(s, ColonAt(fields, p), ":", behind);
  }

  lemma FieldTailIs(fields: Fields)
    ensures FieldTail(fields) != "" && FieldTail(fields)[0] == FieldSign(fields)
    ensures fields.NextField? ==> FieldTail(fields) == "," + ShowFields(fields.rest)
  {
  }

  lemma FieldValueStands(fields: Fields, s: string, p: nat)
    requires Has(s, p, Behind(fields))
    ensures
      var start := p + |fields.space|;
      var end := start + |Show(fields.tree)|;
      && Has(s, p, fields.space) && Has(s, start, Show(fields.tree))
      && Has(s, end, fields.after + [FieldSign(fields)])
      && (fields.NextField? ==> Has(s, end + |fields.after| + 1, ShowFields(fields.rest)))
      && p + |Behind(fields)| == end + |fields.after| + |FieldTail(fields)|
  {
    hide Show, Has, ShowFields, FieldTail, FieldSign;
    var tree, after, tail := Show(fields.tree), fields.after, FieldTail(fields);
    FieldTailIs(fields);
    HasFour(s, p, fields.space, tree, after, tail);
    HasThree(s, p, fields.space, tree, after + tail);
    HasFirst(s, p + |fields.space| + |tree|, after, tail);
    if fields.NextField? {
      HasSplit(s, p + |fields.space| + |tree| + |after|, ",", ShowFields(fields.rest));
    }
  }

  /** The key and the colon, with white space on either side of it. */
  lemma KeyIsRead(fields: Fields, s: string, p: nat)
    requires ProperChars(fields.key) && IsBlank(fields.before) && IsBlank(fields.gap) && Has(s, p, ShowFields(fields))
    ensures
      var start := p + |fields.before|;
      var end := start + |ShowString(fields.key)|;
      && SkipSpace(s, p) == start < |s| && s[start] == '"'
      && ParseString(s, start) == Success(StringMeaning(fields.key), end)
      && end <= |s| && SkipSpace(s, end) == ColonAt(fields, p) && Has(s, ColonAt(fields, p), ":")
  {
    hide ShowFields, ShowString, SkipSpace, IsBlank, ParseString, StringMeaning, Has, Behind, ProperChars;
    var start := p + |fields.before|;
    var end := start + |ShowString(fields.key)|;
    KeyStands(fields, s, p);
    StringTreeIsRead(fields.key, s, start);
    BlankIsSkipped(s, p, fields.before);
    HasAt(s, end + |fields.gap|, ":", 0);
    BlankIsSkipped(s, end, fields.gap);
  }

  function FieldEnd(fields: Fields, p: nat): nat {
    ValueAt(fields, p) + |Show(fields.tree)|
  }

  function FieldNext(fields: Fields, p: nat): nat {
    FieldEnd(fields, p) + |fields.after| + 1
  }

  /** Where the parser gets to behind the colon ... */
  lemma FieldFront(fields: Fields, s: string, p: nat)
    requires ProperFields(fields) && Has(s, p, ShowFields(fields))
    ensures Has(s, ValueAt(fields, p), Show(fields.tree))
    ensures ColonAt(fields, p) + 1 <= |s| && ValueAt(fields, p) <= |s|
    ensures SkipSpace(s, ColonAt(fields, p) + 1) == ValueAt(fields, p) == SkipSpace(s, ValueAt(fields, p))
  {
    hide ProperFields, Proper, ShowFields, ShowString, Show, SkipSpace, IsBlank, IsSpace, Has, FieldTail, FieldSign,
      ColonAt, Opens, Behind;
    FieldParts(fields);
    KeyStands(fields, s, p);
    FieldValueStands(fields, s, ColonAt(fields, p) + 1);
    TreeStands(fields.tree, s, ValueAt(fields, p));
    BlankIsSkipped(s, ColonAt(fields, p) + 1, fields.space);
  }

  /** ... and behind the value. */
  lemma FieldBack(fields: Fields, s: string, p: nat)
    requires ProperFields(fields) && Has(s, p, ShowFields(fields))
    ensures FieldEnd(fields, p) <= |s| && Stops(fields.tree, s, FieldEnd(fields, p))
    ensures SkipSpace(s, FieldEnd(fields, p)) == FieldEnd(fields, p) + |fields.after| < |s|
    ensures s[FieldEnd(fields, p) + |fields.after|] == FieldSign(fields)
  {
    hide ProperFields, ShowFields, ShowString, Show, SkipSpace, IsBlank, Has, Stops, FieldTail, ColonAt, Behind;
    FieldParts(fields);
    KeyStands(fields, s, p);
    FieldValueStands(fields, s, ColonAt(fields, p) + 1);
    AfterValue(fields.tree, s, FieldEnd(fields, p), fields.after, FieldSign(fields));
  }

  lemma FieldRestStands(fields: Fields, s: string, p: nat)
    requires Has(s, p, ShowFields(fields))
    ensures fields.NextField? ==> Has(s, FieldNext(fields, p), ShowFields(fields.rest))
    ensures p + |ShowFields(fields)|
         == FieldNext(fields, p) + (if fields.LastField? then 0 else |ShowFields(fields.rest)|)
  {
    hide ShowFields, ShowString, Show, Has, ColonAt, Behind;
    KeyStands(fields, s, p);
    FieldValueStands(fields, s, ColonAt(fields, p) + 1);
  }

  /** A field, given that its value is read. */
  lemma FieldOfValue(fields: Fields, v: Value, s: string, p: nat)
    requires ProperFields(fields) && Has(s, p, ShowFields(fields)) && ValueAt(fields, p) <= |s|
    requires ParseValue(s, ValueAt(fields, p)) == Success(v, FieldEnd(fields, p))
    ensures
      var start := p + |fields.before|;
      && p <= |s| && SkipSpace(s, p) == start < |s| && s[start] == '"'
      && ParseField(s, start) == Success((StringMeaning(fields.key), v), FieldEnd(fields, p))
  {
    hide ProperFields, ProperChars, Proper, ShowFields, ShowString, Show, SkipSpace, IsBlank, ParseString,
      ParseValue, StringMeaning, Has, ColonAt, ValueAt, FieldEnd;
    FieldParts(fields);
    FieldFront(fields, s, p);
    assert ParseValue(s, ColonAt(fields, p) + 1) == ParseValue(s, ValueAt(fields, p)) by {
      R.ParseValueSkips(s, ColonAt(fields, p) + 1);
    }
    KeyIsRead(fields, s, p);
    PartsOfField(s, p + |fields.before|, StringMeaning(fields.key), p + |fields.before| + |ShowString(fields.key)|,
                 ColonAt(fields, p), v, FieldEnd(fields, p));
  }

  lemma PartsOfField(s: string, p: nat, key: string, end: nat, colon: nat, v: Value, last: nat)
    requires p <= |s| && end <= |s| && colon < |s|
    requires ParseString(s, p) == Success(key, end) && SkipSpace(s, end) == colon && Has(s, colon, ":")
    requires ParseValue(s, colon + 1) == Success(v, last)
    ensures ParseField(s, p) == Success((key, v), last)
  {
    hide ParseString, SkipSpace, Has, ParseValue;
  }

  /** One turn of the loop, given that the value is read. */
  lemma FieldTurn(fields: Fields, v: Value, s: string, p: nat, sofar: map<string, Value>)
    requires ProperFields(fields) && Has(s, p, ShowFields(fields)) && ValueAt(fields, p) <= |s|
    requires ParseValue(s, ValueAt(fields, p)) == Success(v, FieldEnd(fields, p))
    ensures p <= |s| && SkipSpace(s, p) < |s| && s[SkipSpace(s, p)] == '"' && FieldNext(fields, p) <= |s|
    ensures
      var more := sofar[StringMeaning(fields.key) := v];
      ParseFields(s, SkipSpace(s, p), sofar) ==
        if fields.LastField? then Success(Object(more), FieldNext(fields, p))
        else ParseFields(s, SkipSpace(s, FieldNext(fields, p)), more)
  {
    hide ParseFields, ParseField, ParseValue, ProperFields, ProperChars, ShowFields, SkipSpace, Has, Stops, ColonAt,
      ValueAt, FieldEnd, StringMeaning;
    FieldParts(fields);
    FieldOfValue(fields, v, s, p);
    FieldBack(fields, s, p);
    FieldsStep(s, p + |fields.before|, sofar);
  }

  lemma {:induction false} FieldsAreRead(fields: Fields, s: string, p: nat, sofar: map<string, Value>)
    requires ProperFields(fields) && Has(s, p, ShowFields(fields))
    ensures p <= |s| && SkipSpace(s, p) < |s| && s[SkipSpace(s, p)] == '"'
    ensures ParseFields(s, SkipSpace(s, p), sofar)
         == Success(Object(FieldsMeaning(fields, sofar)), p + |ShowFields(fields)|)
    decreases fields, 1
  {
    hide ProperFields, ProperChars, Proper, ShowFields, SkipSpace, ParseFields, ParseValue, StringMeaning, Meaning,
      FieldsMeaning, Has, Stops, ColonAt, ValueAt;
    FieldsMeaningStep(fields, sofar);
    var v := Meaning(fields.tree);
    FieldFront(fields, s, p);
    assert Stops(fields.tree, s, ValueAt(fields, p) + |Show(fields.tree)|) by { FieldBack(fields, s, p); }
    TreeIsRead(fields.tree, s, ValueAt(fields, p));
    FieldTurn(fields, v, s, p, sofar);
    hide Show, FieldEnd;
    FieldRestStands(fields, s, p);
    if fields.NextField? {
      FieldsAreRead(fields.rest, s, FieldNext(fields, p), sofar[StringMeaning(fields.key) := v]);
    }
  }

  lemma FieldParts(fields: Fields)
    requires ProperFields(fields)
    ensures IsBlank(fields.before) && ProperChars(fields.key) && IsBlank(fields.gap) && IsBlank(fields.space)
    ensures Proper(fields.tree) && IsBlank(fields.after) && (fields.NextField? ==> ProperFields(fields.rest))
  {
  }

  lemma FieldsMeaningStep(fields: Fields, sofar: map<string, Value>)
    requires ProperFields(fields)
    ensures ProperChars(fields.key) && Proper(fields.tree) && (fields.NextField? ==> ProperFields(fields.rest))
    ensures
      var more := sofar[StringMeaning(fields.key) := Meaning(fields.tree)];
      FieldsMeaning(fields, sofar) == if fields.LastField? then more else FieldsMeaning(fields.rest, more)
  {
  }
}
