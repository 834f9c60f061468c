/** Whatever the parser takes is a text of the grammar, so the parser reads these texts and no others. */
module JsonSoundness {
  import opened Wrappers
  import opened Texts
  import opened Chars
  import opened JsonValue
  import opened JsonSyntax
  import opened JsonGrammar
  import opened JsonReading
  import Utf8
  import R = JsonRoundTrip

  // ---------- strings ----------

  lemma CharIsTree(s: string, p: nat, sofar: string) returns (c: CharTree)
    requires p < |s| && s[p] != '"' && ParseChars(s, p, sofar).Success?
    ensures
      var q := p + |ShowChar(c)|;
      && q < |s| && Has(s, p, ShowChar(c)) && ProperChar(c, s[q])
      && ParseChars(s, p, sofar) == ParseChars(s, q, sofar + CharMeaning(c, s[q]))
  {
    hide ParseChars, ParseEscape, ParseUnicode, Utf8.Encode, Code, Nibble, SimpleCode;
    if s[p] != '\\' {
      c := Itself(s[p]);
      ItselfIsRead(s[p], s, p, sofar);
      RestIsNotEmpty(s, p + 1, sofar + [s[p]]);
    } else {
      EscapeIsTaken(s, p, sofar);
      EscapeNeedsMore(s, p + 1);
      EscapeKinds(s, p + 1);
      if s[p + 1] == 'u' {
        UnicodeIsRead(s, p + 1);
        c := Unicode(s[p + 2], s[p + 3], s[p + 4], s[p + 5]);
        assert s[p..p + 6] == ShowChar(c);
      } else {
        c := Simple(s[p + 1]);
        RestIsNotEmpty(s, p + 2, sofar + [SimpleCode(s[p + 1]) as char]);
        assert s[p..p + 2] == ShowChar(c);
      }
    }
  }

  lemma RestIsNotEmpty(s: string, p: nat, sofar: string)
    requires p <= |s| && ParseChars(s, p, sofar).Success?
    ensures p < |s|
  {
  }

  lemma EscapeNeedsMore(s: string, p: nat)
    requires p <= |s| && ParseEscape(s, p).Success?
    ensures p < |s|
  {
  }

  lemma {:induction false} CharsAreTree(s: string, p: nat, sofar: string) returns (chars: seq<CharTree>)
    requires p <= |s| && ParseChars(s, p, sofar).Success?
    ensures ProperChars(chars) && Has(s, p, ShowChars(chars))
    ensures ParseChars(s, p, sofar) == Success(sofar + StringMeaning(chars), p + |ShowChars(chars)|)
    decreases |s| - p
  {
    hide ParseChars, CharMeaning, ProperChar, ProperChars, StringMeaning, ShowChar, ShowChars, Has;
    RestIsNotEmpty(s, p, sofar);
    if s[p] == '"' {
      chars := [];
      NoCharMore(s, p, sofar);
    } else {
      var c := CharIsTree(s, p, sofar);
      var q := p + |ShowChar(c)|;
      var meaning := CharMeaning(c, s[q]);
      var rest := CharsAreTree(s, q, sofar + meaning);
      chars := [c] + rest;
      OneCharMore(c, rest, s, p);
      assert sofar + meaning + StringMeaning(rest) == sofar + (meaning + StringMeaning(rest));
    }
  }

  lemma NoCharMore(s: string, p: nat, sofar: string)
    requires p < |s| && s[p] == '"'
    ensures ProperChars([]) && Has(s, p, ShowChars([]))
    ensures ParseChars(s, p, sofar) == Success(sofar + StringMeaning([]), p + |ShowChars([])|)
  {
    assert sofar + "" == sofar;
  }

  lemma OneCharMore(c: CharTree, rest: seq<CharTree>, s: string, p: nat)
    requires Has(s, p, ShowChar(c)) && ProperChars(rest) && Has(s, p + |ShowChar(c)|, ShowChars(rest))
    requires p + |ShowChar(c)| < |s| && ProperChar(c, s[p + |ShowChar(c)|])
    ensures
      var chars, next := [c] + rest, s[p + |ShowChar(c)|];
      && ProperChars(chars) && Has(s, p, ShowChars(chars))
      && |ShowChars(chars)| == |ShowChar(c)| + |ShowChars(rest)|
      && StringMeaning(chars) == CharMeaning(c, next) + StringMeaning(rest)
  {
    hide ShowChar, ProperChar, CharMeaning, Has;
    var chars := [c] + rest;
    assert chars[1..] == rest;
    HasAt(s, p + |ShowChar(c)|, ShowChars(rest), 0);
    HasJoin(s, p, ShowChar(c), ShowChars(rest));
  }

  lemma StringIsTree(s: string, p: nat) returns (chars: seq<CharTree>)
    requires p <= |s| && ParseString(s, p).Success?
    ensures ProperChars(chars) && Has(s, p, ShowString(chars))
    ensures ParseString(s, p) == Success(StringMeaning(chars), p + |ShowString(chars)|)
  {
    hide ParseChars, ProperChars, StringMeaning, ShowChars;
    chars := CharsAreTree(s, p + 1, "");
    HasJoin(s, p, "\"", ShowChars(chars));
    assert "" + StringMeaning(chars) == StringMeaning(chars);
  }

  // ---------- numbers ----------

  lemma SkippedIsDecimal(s: string, p: nat)
    requires p <= |s|
    ensures IsDecimal(s[p..SkipDigits(s, p)]) && NoDigit(s, SkipDigits(s, p))
  {
    DecimalIsValue(s[p..SkipDigits(s, p)]);
  }

  lemma FractionIsTree(s: string, p: nat) returns (fraction: Option<string>)
    requires p <= |s| && NoDigit(s, p)
    ensures fraction.Some? ==> IsDecimal(fraction.value)
    ensures Has(s, p, ShowFraction(fraction)) && FractionEnd(s, p) == p + |ShowFraction(fraction)|
    ensures FractionStops(fraction, s, FractionEnd(s, p))
  {
    if p < |s| && s[p] == '.' {
      var q := SkipDigits(s, p + 1);
      fraction := Some(s[p + 1..q]);
      SkippedIsDecimal(s, p + 1);
      hide SkipDigits;
      assert s[p..q] == "." + s[p + 1..q];
    } else {
      fraction := None;
    }
  }

  /** The sign that may stand behind the letter of an exponent. */
  function SignAt(s: string, p: nat): string {
    if p < |s| && (s[p] == '+' || s[p] == '-') then [s[p]] else ""
  }

  lemma ExponentStarts(s: string, p: nat)
    requires p < |s| && (s[p] == 'e' || s[p] == 'E')
    ensures Has(s, p + 1, SignAt(s, p + 1)) && p + 1 + |SignAt(s, p + 1)| <= |s|
    ensures ExponentEnd(s, p) == SkipDigits(s, p + 1 + |SignAt(s, p + 1)|)
  {
    hide SkipDigits;
  }

  lemma ExponentIsTree(s: string, p: nat) returns (exponent: Option<Exponent>)
    requires p <= |s|
    ensures exponent.Some? ==> ProperExponent(exponent.value)
    ensures Has(s, p, ShowExponent(exponent)) && ExponentEnd(s, p) == p + |ShowExponent(exponent)|
    ensures ExponentStops(exponent, s, ExponentEnd(s, p))
  {
    if p < |s| && (s[p] == 'e' || s[p] == 'E') {
      hide SkipDigits, ExponentEnd, Has, SignAt, ExponentOf, ShowExponent, ProperExponent, ExponentStops;
      ExponentStarts(s, p);
      exponent := Some(ExponentOf(s, p));
      ExponentIsShown(s, p);
      ExponentIsProper(s, p);
    } else {
      exponent := None;
    }
  }

  lemma ExponentIsProper(s: string, p: nat)
    requires p < |s| && (s[p] == 'e' || s[p] == 'E') && p + 1 + |SignAt(s, p + 1)| <= |s|
    ensures ProperExponent(ExponentOf(s, p))
    ensures ExponentStops(Some(ExponentOf(s, p)), s, SkipDigits(s, p + 1 + |SignAt(s, p + 1)|))
  {
    hide SkipDigits, IsDecimal, NoDigit;
    SkippedIsDecimal(s, p + 1 + |SignAt(s, p + 1)|);
  }

  function ExponentOf(s: string, p: nat): Exponent
    requires p < |s| && p + 1 + |SignAt(s, p + 1)| <= |s|
  {
    var start := p + 1 + |SignAt(s, p + 1)|;
    Exponent(s[p], SignAt(s, p + 1), s[start..SkipDigits(s, start)])
  }

  lemma ExponentIsShown(s: string, p: nat)
    requires p < |s| && Has(s, p + 1, SignAt(s, p + 1)) && p + 1 + |SignAt(s, p + 1)| <= |s|
    ensures
      var shown := ShowExponent(Some(ExponentOf(s, p)));
      Has(s, p, shown) && p + |shown| == SkipDigits(s, p + 1 + |SignAt(s, p + 1)|)
  {
    hide SkipDigits, Has, SignAt;
    var e := ExponentOf(s, p);
    var start := p + 1 + |e.sign|;
    HasSlice(s, start, SkipDigits(s, start));
    HasOne(s, p);
    HasJoin(s, p + 1, e.sign, e.digits);
    HasJoin(s, p, [s[p]], e.sign + e.digits);
  }

  lemma NumberIsTree(s: string, p: nat) returns (n: Number)
    requires p < |s| && (IsDigit(s[p]) || s[p] == '-') && ParseNumber(s, p).Success?
    ensures ProperNumber(n) && Has(s, p, ShowNumber(n)) && NumberStops(n, s, p + |ShowNumber(n)|)
  {
    hide ParseNumber, SkipDigits, FractionEnd, ExponentEnd, IsDecimal, NoDigit, FractionStops, ExponentStops,
      ShowFraction, ShowExponent, ProperExponent, Has, ShowNumber;
    var start := AfterMinus(s, p);
    var whole := SkipDigits(s, start);
    SkippedIsDecimal(s, start);
    var fraction := FractionIsTree(s, whole);
    var exponent := ExponentIsTree(s, FractionEnd(s, whole));
    n := Number(s[p] == '-', s[start..whole], fraction, exponent);
    NumberOfParts(s, p, start, whole, FractionEnd(s, whole), ExponentEnd(s, FractionEnd(s, whole)));
    PartLengths(n);
    NumberIsJoined(n, s, p);
    StopsBehind(n, s, p + |ShowNumber(n)|);
  }

  lemma NumberIsJoined(n: Number, s: string, p: nat)
    requires n.minus ==> p < |s| && s[p] == '-'
    requires FractionAt(n, p) <= |s| && n.whole == s[WholeAt(n, p)..FractionAt(n, p)]
    requires Has(s, FractionAt(n, p), ShowFraction(n.fraction)) && Has(s, ExponentAt(n, p), ShowExponent(n.exponent))
    ensures Has(s, p, ShowNumber(n)) && p + |ShowNumber(n)| == ExponentAt(n, p) + |ShowExponent(n.exponent)|
  {
    hide ShowFraction, ShowExponent, ShowNumber;
    NumberTextIs(n);
    var fraction, exponent := ShowFraction(n.fraction), ShowExponent(n.exponent);
    assert Has(s, WholeAt(n, p), n.whole);
    assert n.minus ==> Has(s, p, "-");
    hide Has;
    HasJoin(s, FractionAt(n, p), fraction, exponent);
    HasJoin(s, WholeAt(n, p), n.whole, fraction + exponent);
    if n.minus {
      HasJoin(s, p, "-", n.whole + (fraction + exponent));
    } else {
      assert "" + (n.whole + (fraction + exponent)) == n.whole + (fraction + exponent);
    }
  }

  lemma StopsBehind(n: Number, s: string, p: nat)
    requires ExponentStops(n.exponent, s, p)
    requires n.exponent.None? ==> FractionStops(n.fraction, s, p)
    ensures NumberStops(n, s, p)
  {
  }

  // ---------- values ----------

  lemma SkippedIsBlank(s: string, p: nat)
    requires p <= |s|
    ensures IsBlank(s[p..SkipSpace(s, p)]) && Has(s, p, s[p..SkipSpace(s, p)])
    ensures p + |s[p..SkipSpace(s, p)]| == SkipSpace(s, p)
  {
    BlankIsSpace(s[p..SkipSpace(s, p)]);
    HasSlice(s, p, SkipSpace(s, p));
  }

  lemma ValueNeedsMore(s: string, p: nat)
    requires p <= |s| && ParseValue(s, p).Success?
    ensures SkipSpace(s, p) < |s| && !IsSpace(s[SkipSpace(s, p)])
    ensures ParseValue(s, SkipSpace(s, p)) == ParseValue(s, p)
  {
    R.ParseValueSkips(s, p);
  }

  lemma WordIsTree(s: string, p: nat, word: string, v: Value)
    requires word != "" && ParseWord(s, p, word, v).Success?
    ensures Has(s, p, word) && ParseWord(s, p, word, v) == Success(v, p + |word|)
  {
  }

  lemma BoolIsTree(s: string, p: nat) returns (t: Tree)
    requires ParseBool(s, p).Success?
    ensures t.BoolTree? && Has(s, p, Show(t)) && ParseBool(s, p) == Success(Bool(t.b), p + |Show(t)|)
  {
    t := BoolTree(Has(s, p, "true"));
  }

  lemma NoNumberStops(t: Tree, s: string, p: nat)
    requires !t.NumberTree?
    ensures Stops(t, s, p)
  {
  }

  /** What is read of a value that starts at `p`. */
  lemma {:induction false} ValueIsTree(s: string, p: nat) returns (t: Tree)
    requires p < |s| && !IsSpace(s[p]) && ParseValue(s, p).Success?
    ensures Proper(t) && Has(s, p, Show(t)) && Stops(t, s, p + |Show(t)|)
    ensures ParseValue(s, p) == Success(Meaning(t), p + |Show(t)|)
    decreases |s| - p, 1
  {
    hide ParseValue, ParseWord, ParseBool, ParseNumber, ParseString, ParseArray, ParseObject, Has, IsSpace, ShowNumber,
      ShowString, ShowItems, ShowFields, ProperNumber, ProperChars, ProperItems, ProperFields, StringMeaning,
      NumberMeaning, ItemsMeaning, FieldsMeaning, Stops;
    ValueStarts(s, p);
    match s[p] {
      case 'n' =>
        WordIsTree(s, p, "null", Null);
        t := NullTree;
      case 't' => t := BoolIsTree(s, p);
      case 'f' => t := BoolIsTree(s, p);
      case '"' =>
        var chars := StringIsTree(s, p);
        t := StringTree(chars);
      case '[' => t := ArrayIsTree(s, p);
      case '{' => t := ObjectIsTree(s, p);
      case _ =>
        var n := NumberIsTree(s, p);
        NumberIsRead(n, s, p);
        t := NumberTree(n);
    }
    if !t.NumberTree? {
      NoNumberStops(t, s, p + |Show(t)|);
    } else {
      NumberTreeStops(t, s, p + |Show(t)|);
    }
  }

  lemma NumberTreeStops(t: Tree, s: string, p: nat)
    requires t.NumberTree? && NumberStops(t.n, s, p)
    ensures Stops(t, s, p)
  {
  }

  lemma {:induction false} ArrayIsTree(s: string, p: nat) returns (t: Tree)
    requires p < |s| && ParseArray(s, p).Success?
    ensures (t.EmptyArray? || t.ArrayTree?) && Proper(t) && Has(s, p, Show(t))
    ensures ParseArray(s, p) == Success(Meaning(t), p + |Show(t)|)
    decreases |s| - p, 0
  {
    hide ParseElements, Has, IsBlank, SkipSpace, ShowItems, ProperItems, ItemsMeaning;
    var q := SkipSpace(s, p + 1);
    SkippedIsBlank(s, p + 1);
    if Peek(s, q) == ']' {
      var blank := s[p + 1..q];
      t := EmptyArray(blank);
      HasOne(s, q);
      HasJoin(s, p + 1, blank, "]");
      HasJoin(s, p, "[", blank + "]");
    } else {
      var items := ElementsAreItems(s, p + 1, []);
      t := ArrayTree(items);
      assert [] + ItemsMeaning(items) == ItemsMeaning(items);
      HasJoin(s, p, "[", ShowItems(items));
    }
  }

  lemma {:induction false} ElementsAreItems(s: string, p: nat, sofar: seq<Value>) returns (items: Items)
    requires p <= |s| && ParseElements(s, SkipSpace(s, p), sofar).Success?
    ensures ProperItems(items) && Has(s, p, ShowItems(items))
    ensures ParseElements(s, SkipSpace(s, p), sofar)
         == Success(Array(sofar + ItemsMeaning(items)), p + |ShowItems(items)|)
    decreases |s| - p, 2
  {
    hide ParseElements, ParseValue, Has, IsBlank, IsSpace, SkipSpace, ShowItems, Show, ProperItems, Proper, Meaning,
      ItemsMeaning, Stops;
    var q := SkipSpace(s, p);
    ElementsStep(s, q, sofar);
    ValueIsAhead(s, p);
    var t := ValueIsTree(s, q);
    var end, v := q + |Show(t)|, Meaning(t);
    var c := SkipSpace(s, end);
    SkippedIsBlank(s, p);
    SkippedIsBlank(s, end);
    if Peek(s, c) == ',' {
      var rest := ElementsAreItems(s, c + 1, sofar + [v]);
      items := NextItem(s[p..q], t, s[end..c], rest);
      HasOne(s, c);
      ItemIsJoined(items, s, p);
      assert sofar + [v] + ItemsMeaning(rest) == sofar + ([v] + ItemsMeaning(rest));
    } else {
      items := LastItem(s[p..q], t, s[end..c]);
      HasOne(s, c);
      ItemIsJoined(items, s, p);
      assert [v] + [] == [v];
    }
    ItemsOfParts(items);
  }

  /** A value is read from where the white space ends. */
  lemma ValueIsAhead(s: string, p: nat)
    requires p <= |s| && ParseValue(s, SkipSpace(s, p)).Success?
    ensures SkipSpace(s, p) < |s| && !IsSpace(s[SkipSpace(s, p)])
  {
    hide IsSpace;
    SkipTwice(s, p);
    ValueNeedsMore(s, SkipSpace(s, p));
  }

  lemma SkipTwice(s: string, p: nat)
    requires p <= |s|
    ensures SkipSpace(s, SkipSpace(s, p)) == SkipSpace(s, p)
  {
  }

  lemma ItemsOfParts(items: Items)
    requires IsBlank(items.before) && Proper(items.tree) && IsBlank(items.after)
    requires items.NextItem? ==> ProperItems(items.rest)
    ensures ProperItems(items)
    ensures ItemsMeaning(items) == [Meaning(items.tree)] + (if items.LastItem? then [] else ItemsMeaning(items.rest))
  {
  }

  lemma ItemIsJoined(items: Items, s: string, p: nat)
    requires Has(s, p, items.before) && Has(s, ItemAt(items, p), Show(items.tree))
    requires Has(s, ItemEnd(items, p), items.after) && Has(s, ItemEnd(items, p) + |items.after|, [TailSign(items)])
    requires items.NextItem? ==> Has(s, NextAt(items, p), ShowItems(items.rest))
    ensures Has(s, p, ShowItems(items))
    ensures p + |ShowItems(items)| == NextAt(items, p) + (if items.LastItem? then 0 else |ShowItems(items.rest)|)
  {
    hide ShowItems, Show, Has, Tail;
    ItemTextIs(items);
    TailIsJoined(items, s, ItemEnd(items, p) + |items.after|);
    HasJoinFour(s, p, items.before, Show(items.tree), items.after, Tail(items));
  }

  lemma TailIsJoined(items: Items, s: string, p: nat)
    requires Has(s, p, [TailSign(items)]) && (items.NextItem? ==> Has(s, p + 1, ShowItems(items.rest)))
    ensures Has(s, p, Tail(items))
    ensures |Tail(items)| == 1 + (if items.LastItem? then 0 else |ShowItems(items.rest)|)
  {
    hide ShowItems, Has;
    if items.NextItem? {
      HasJoin(s, p, ",", ShowItems(items.rest));
    }
  }

  lemma {:induction false} ObjectIsTree(s: string, p: nat) returns (t: Tree)
    requires p < |s| && ParseObject(s, p).Success?
    ensures (t.EmptyObject? || t.ObjectTree?) && Proper(t) && Has(s, p, Show(t))
    ensures ParseObject(s, p) == Success(Meaning(t), p + |Show(t)|)
    decreases |s| - p, 0
  {
    hide ParseFields, Has, IsBlank, SkipSpace, ShowFields, ProperFields, FieldsMeaning;
    var q := SkipSpace(s, p + 1);
    SkippedIsBlank(s, p + 1);
    if Peek(s, q) == '}' {
      var blank := s[p + 1..q];
      t := EmptyObject(blank);
      HasOne(s, q);
      HasJoin(s, p + 1, blank, "}");
      HasJoin(s, p, "{", blank + "}");
    } else {
      var fields := FieldsAreTree(s, p + 1, map[]);
      t := ObjectTree(fields);
      HasJoin(s, p, "{", ShowFields(fields));
    }
  }

  /** The parts of a field that has been read. */
  lemma FieldIsAhead(s: string, p: nat)
    requires p <= |s| && ParseField(s, p).Success?
    ensures ParseString(s, p).Success?
    ensures
      var key := ParseString(s, p);
      var colon := SkipSpace(s, key.pos);
      && colon < |s| && Has(s, colon, ":") && ParseValue(s, colon + 1).Success?
      && ParseField(s, p) == Success((key.value, ParseValue(s, colon + 1).value), ParseValue(s, colon + 1).pos)
  {
    hide ParseString, ParseValue, SkipSpace;
  }

  /** The parts of one turn of the loop that has not failed. */
  lemma TurnIsAhead(s: string, q: nat, sofar: map<string, Value>)
    requires q <= |s| && ParseFields(s, q, sofar).Success?
    ensures q < |s| && s[q] == '"' && ParseField(s, q).Success?
    ensures
      var field := ParseField(s, q);
      var c, more := SkipSpace(s, field.pos), sofar[field.value.0 := field.value.1];
      && c < |s| && (s[c] == ',' || s[c] == '}')
      && ParseFields(s, q, sofar) ==
           if s[c] == ',' then ParseFields(s, SkipSpace(s, c + 1), more) else Success(Object(more), c + 1)
  {
    hide ParseField, SkipSpace;
    FieldsStep(s, q, sofar);
  }

  /** One field and what the parser meets behind it. */
  lemma {:induction false} FieldIsTree(s: string, p: nat, sofar: map<string, Value>) returns (f: Fields)
    requires p <= |s| && ParseFields(s, SkipSpace(s, p), sofar).Success?
    ensures f.LastField? && FieldStands(f, s, p)
    ensures
      var c := FieldEnd(f, p) + |f.after|;
      var more := sofar[StringMeaning(f.key) := Meaning(f.tree)];
      && c < |s| && (s[c] == ',' || s[c] == '}')
      && ParseFields(s, SkipSpace(s, p), sofar) ==
           if s[c] == ',' then ParseFields(s, SkipSpace(s, c + 1), more) else Success(Object(more), c + 1)
    decreases |s| - p, 2
  {
    hide ParseFields, ParseField, ParseString, ParseValue, Has, IsBlank, IsSpace, SkipSpace, ShowString, Show,
      ProperChars, Proper, StringMeaning, Meaning, Stops;
    var q := SkipSpace(s, p);
    TurnIsAhead(s, q, sofar);
    FieldIsAhead(s, q);
    var key := StringIsTree(s, q);
    var keyEnd := q + |ShowString(key)|;
    var colon := SkipSpace(s, keyEnd);
    ValueNeedsMore(s, colon + 1);
    var start := SkipSpace(s, colon + 1);
    var t := ValueIsTree(s, start);
    var end := start + |Show(t)|;
    var c := SkipSpace(s, end);
    FieldIsFramed(s, p, q, keyEnd, colon, start, end, c);
    f := LastField(s[p..q], key, s[keyEnd..colon], s[colon + 1..start], t, s[end..c]);
  }

  /** All parts of a field are proper, and stand where they should. */
  ghost predicate FieldStands(f: Fields, s: string, p: nat) {
    && IsBlank(f.before) && ProperChars(f.key) && IsBlank(f.gap) && IsBlank(f.space) && Proper(f.tree)
    && IsBlank(f.after)
    && Has(s, p, f.before) && Has(s, p + |f.before|, ShowString(f.key))
    && Has(s, p + |f.before| + |ShowString(f.key)|, f.gap) && Has(s, ColonAt(f, p), ":")
    && Has(s, ColonAt(f, p) + 1, f.space) && Has(s, ValueAt(f, p), Show(f.tree)) && Has(s, FieldEnd(f, p), f.after)
  }

  lemma {:induction false} FieldsAreTree(s: string, p: nat, sofar: map<string, Value>) returns (fields: Fields)
    requires p <= |s| && ParseFields(s, SkipSpace(s, p), sofar).Success?
    ensures ProperFields(fields) && Has(s, p, ShowFields(fields))
    ensures ParseFields(s, SkipSpace(s, p), sofar)
         == Success(Object(FieldsMeaning(fields, sofar)), p + |ShowFields(fields)|)
    decreases |s| - p, 3
  {
    hide ParseFields, Has, IsBlank, SkipSpace, ShowFields, ShowString, Show, ProperFields, ProperChars, Proper,
      FieldsMeaning, StringMeaning, Meaning, ColonAt, ValueAt;
    var f := FieldIsTree(s, p, sofar);
    var c := FieldEnd(f, p) + |f.after|;
    HasOne(s, c);
    if s[c] == ',' {
      BehindStart(f, p);
      var rest := FieldsAreTree(s, c + 1, sofar[StringMeaning(f.key) := Meaning(f.tree)]);
      fields := NextField(f.before, f.key, f.gap, f.space, f.tree, f.after, rest);
      SamePlaces(f, fields, p);
    } else {
      fields := f;
    }
    FieldIsJoined(fields, s, p);
    FieldsOfParts(fields);
    FieldsMeaningStep(fields, sofar);
  }

  lemma BehindStart(f: Fields, p: nat)
    ensures FieldEnd(f, p) > p
  {
  }

  lemma SamePlaces(f: Fields, g: Fields, p: nat)
    requires f.before == g.before && f.key == g.key && f.gap == g.gap && f.space == g.space && f.tree == g.tree
    requires f.after == g.after
    ensures ColonAt(f, p) == ColonAt(g, p) && ValueAt(f, p) == ValueAt(g, p) && FieldEnd(f, p) == FieldEnd(g, p)
  {
  }

  /** The four pieces of white space in and around a field. */
  lemma FieldIsFramed(s: string, p: nat, q: nat, keyEnd: nat, colon: nat, start: nat, end: nat, c: nat)
    requires p <= |s| && keyEnd <= |s| && colon < |s| && end <= |s|
    requires q == SkipSpace(s, p) && colon == SkipSpace(s, keyEnd) && start == SkipSpace(s, colon + 1)
    requires c == SkipSpace(s, end)
    ensures IsBlank(s[p..q]) && Has(s, p, s[p..q])
    ensures IsBlank(s[keyEnd..colon]) && Has(s, keyEnd, s[keyEnd..colon])
    ensures IsBlank(s[colon + 1..start]) && Has(s, colon + 1, s[colon + 1..start])
    ensures IsBlank(s[end..c]) && Has(s, end, s[end..c])
  {
    hide IsBlank, Has, SkipSpace;
    SkippedIsBlank(s, p);
    SkippedIsBlank(s, keyEnd);
    SkippedIsBlank(s, colon + 1);
    SkippedIsBlank(s, end);
  }

  lemma FieldsOfParts(fields: Fields)
    requires IsBlank(fields.before) && ProperChars(fields.key) && IsBlank(fields.gap) && IsBlank(fields.space)
    requires Proper(fields.tree) && IsBlank(fields.after) && (fields.NextField? ==> ProperFields(fields.rest))
    ensures ProperFields(fields)
  {
  }

  lemma FieldIsJoined(fields: Fields, s: string, p: nat)
    requires FieldStands(fields, s, p) && Has(s, FieldEnd(fields, p) + |fields.after|, [FieldSign(fields)])
    requires fields.NextField? ==> Has(s, FieldNext(fields, p), ShowFields(fields.rest))
    ensures Has(s, p, ShowFields(fields))
    ensures p + |ShowFields(fields)|
         == FieldNext(fields, p) + (if fields.LastField? then 0 else |ShowFields(fields.rest)|)
  {
    hide ShowFields, ShowString, Show, Has, FieldTail, Behind, ProperChars, Proper, IsBlank;
    FieldTextIs(fields);
    BehindIsJoined(fields, s, ColonAt(fields, p) + 1);
    HasJoin(s, ColonAt(fields, p), ":", Behind(fields));
    HasJoinFour(s, p, fields.before, ShowString(fields.key), fields.gap, ":" + Behind(fields));
  }

  lemma BehindIsJoined(fields: Fields, s: string, p: nat)
    requires
      var start := p + |fields.space|;
      var end := start + |Show(fields.tree)|;
      && Has(s, p, fields.space) && Has(s, start, Show(fields.tree)) && Has(s, end, fields.after)
      && Has(s, end + |fields.after|, [FieldSign(fields)])
      && (fields.NextField? ==> Has(s, end + |fields.after| + 1, ShowFields(fields.rest)))
    ensures Has(s, p, Behind(fields))
    ensures |Behind(fields)| == |fields.space| + |Show(fields.tree)| + |fields.after| + 1
                                + (if fields.LastField? then 0 else |ShowFields(fields.rest)|)
  {
    hide ShowFields, Show, Has, FieldTail;
    var end := p + |fields.space| + |Show(fields.tree)|;
    FieldTailIsJoined(fields, s, end + |fields.after|);
    HasJoinFour(s, p, fields.space, Show(fields.tree), fields.after, FieldTail(fields));
  }

  lemma FieldTailIsJoined(fields: Fields, s: string, p: nat)
    requires Has(s, p, [FieldSign(fields)]) && (fields.NextField? ==> Has(s, p + 1, ShowFields(fields.rest)))
    ensures Has(s, p, FieldTail(fields))
    ensures |FieldTail(fields)| == 1 + (if fields.LastField? then 0 else |ShowFields(fields.rest)|)
  {
    hide ShowFields, Has;
    if fields.NextField? {
      HasJoin(s, p, ",", ShowFields(fields.rest));
    }
  }

  // ---------- the whole ----------

  /** A text that starts with white space and a text of the grammar for `v`, and what ends it there. */
  ghost predicate Denotes(str: string, blank: string, t: Tree, v: Value, end: nat) {
    && IsBlank(blank) && Proper(t) && Meaning(t) == v
    && Has(str, 0, blank + Show(t)) && end == |blank| + |Show(t)| && Stops(t, str, end)
  }

  /** Strict parsing gives the value `v` and stops at `end` if and only if the text denotes it up to there. */
  lemma ParseMeans(str: string, v: Value, end: nat)
    ensures Parse(str, true) == Success(v, end) <==> exists blank, t :: Denotes(str, blank, t, v, end)
  {
    hide ParseValue, Has, IsBlank, Proper, Show, Meaning, Stops;
    if Parse(str, true) == Success(v, end) {
      ValueNeedsMore(str, 0);
      SkippedIsBlank(str, 0);
      var q := SkipSpace(str, 0);
      var t := ValueIsTree(str, q);
      HasJoin(str, 0, str[0..q], Show(t));
      assert Denotes(str, str[0..q], t, v, end);
    }
    if exists blank, t :: Denotes(str, blank, t, v, end) {
      var blank, t :| Denotes(str, blank, t, v, end);
      DenotedIsParsed(str, blank, t, v, end);
    }
  }

  lemma DenotedIsParsed(str: string, blank: string, t: Tree, v: Value, end: nat)
    requires Denotes(str, blank, t, v, end)
    ensures Parse(str, true) == Success(v, end)
  {
    hide ParseValue, Has, IsBlank, Proper, Show, Meaning, Stops;
    HasSplit(str, 0, blank, Show(t));
    BlankIsSkipped(str, 0, blank);
    TreeIsRead(t, str, |blank|);
    R.ParseValueSkips(str, 0);
    R.ParseValueSkips(str, |blank|);
  }

  /** Every text of the grammar between white space is read, and reading stops behind it. */
  lemma TextIsParsed(before: string, t: Tree, after: string)
    requires IsBlank(before) && Proper(t) && IsBlank(after)
    ensures Parse(before + Show(t) + after, true) == Success(Meaning(t), |before| + |Show(t)|)
  {
    hide Proper, Show, Meaning, Stops, Parse;
    var s, end := before + Show(t) + after, |before| + |Show(t)|;
    assert s[0..end] == before + Show(t);
    if end < |s| {
      assert s[end] == after[0];
    }
    EndsValue(t, s, end);
    DenotedIsParsed(s, before, t, Meaning(t), end);
  }

  /** Parsing that is not strict fails on every text. */
  lemma LooseFails(str: string)
    ensures Parse(str, false) == Failure
  {
  }
}
