/** Printing a value and parsing the text again. */
module JsonRoundTrip {
  import opened Chars
  import opened Texts
  import opened JsonValue
  import opened JsonSyntax
  import opened JsonText

  // ---------- standing at a position ----------

  lemma {:induction false} SkipOver(s: string, p: nat, blank: string)
    requires Has(s, p, blank) && AllSpaces(blank)
    ensures SkipSpace(s, p) == SkipSpace(s, p + |blank|)
    decreases |blank|
  {
    if blank != "" {
      HasAt(s, p, blank, 0);
      assert s[p + 1..p + 1 + |blank[1..]|] == s[p..p + |blank|][1..];
      SkipOver(s, p + 1, blank[1..]);
    }
  }

  /** `parseValue` skips the white space in front of it. */
  lemma ParseValueSkips(s: string, p: nat)
    requires p <= |s|
    ensures ParseValue(s, p) == ParseValue(s, SkipSpace(s, p))
  {
    var q := SkipSpace(s, p);
    assert SkipSpace(s, q) == q;
  }

  // ---------- numbers ----------

  /** What may follow a number without becoming a part of it. */
  predicate EndsNumber(s: string, p: nat) {
    p < |s| ==> !IsDigit(s[p]) && s[p] != '.' && s[p] != 'e' && s[p] != 'E'
  }

  lemma {:induction false} SkipDigitsOver(s: string, p: nat, digits: string)
    requires Has(s, p, digits) && AllDigits(digits) && EndsNumber(s, p + |digits|)
    ensures SkipDigits(s, p) == p + |digits|
    decreases |digits|
  {
    if digits != "" {
      HasAt(s, p, digits, 0);
      assert s[p + 1..p + 1 + |digits[1..]|] == s[p..p + |digits|][1..];
      SkipDigitsOver(s, p + 1, digits[1..]);
    }
  }

  lemma NothingFollows(s: string, p: nat)
    requires p <= |s| && EndsNumber(s, p)
    ensures FractionEnd(s, p) == p && ExponentEnd(s, p) == p
  {
  }

  /** Digits, after a sign or not, with nothing after them that could belong to the number. */
  lemma DigitsAreRead(s: string, p: nat, start: nat, digits: string)
    requires p < |s| && (IsDigit(s[p]) || s[p] == '-') && start == AfterMinus(s, p)
    requires digits != "" && AllDigits(digits) && Has(s, start, digits) && EndsNumber(s, start + |digits|)
    ensures
      var size: int := NatValue(digits);
      var n := if s[p] == '-' then -size else size;
      INT_MIN <= n <= INT_MAX ==> ParseNumber(s, p) == Success(Int(n), start + |digits|)
  {
    hide SkipDigits, NatValue, FractionEnd, ExponentEnd;
    SkipDigitsOver(s, start, digits);
    NothingFollows(s, start + |digits|);
  }

  lemma IntIsRead(s: string, p: nat, n: Int32)
    requires Has(s, p, IntText(n)) && EndsNumber(s, p + |IntText(n)|)
    ensures p < |s| && (IsDigit(s[p]) || s[p] == '-')
    ensures ParseNumber(s, p) == Success(Int(n), p + |IntText(n)|)
  {
    hide ParseNumber, NatText, NatValue, Has;
    var m: int := n;
    var size: nat := if m < 0 then -m else m;
    var sign, digits := if m < 0 then "-" else "", NatText(size);
    assert IntText(n) == sign + digits;
    HasSplit(s, p, sign, digits);
    HasAt(s, p, IntText(n), 0);
    NatTextDenotes(size);
    DigitsAreRead(s, p, p + |sign|, digits);
  }

  // ---------- strings ----------

  lemma EscapeIsRead(s: string, p: nat, c: char, sofar: string)
    requires Has(s, p, EscapeChar(c))
    ensures ParseChars(s, p, sofar) == ParseChars(s, p + |EscapeChar(c)|, sofar + [c])
  {
    HasAt(s, p, EscapeChar(c), 0);
    if |EscapeChar(c)| == 2 {
      HasAt(s, p, EscapeChar(c), 1);
      assert ParseEscape(s, p + 1) == Success([c], p + 2);
    }
  }

  lemma QuoteEndsString(s: string, p: nat, sofar: string)
    requires Has(s, p, "\"")
    ensures ParseChars(s, p, sofar) == Success(sofar, p + 1)
  {
    HasAt(s, p, "\"", 0);
  }

  lemma {:induction false} StringIsRead(s: string, p: nat, t: string, sofar: string)
    requires Has(s, p, Escape(t) + "\"")
    ensures ParseChars(s, p, sofar) == Success(sofar + t, p + |Escape(t)| + 1)
    decreases |t|
  {
    hide EscapeChar, ParseChars, Has;
    if t == "" {
      assert Escape(t) + "\"" == "\"" && sofar + t == sofar;
      QuoteEndsString(s, p, sofar);
    } else {
      var first := EscapeChar(t[0]);
      assert Escape(t) + "\"" == first + (Escape(t[1..]) + "\"");
      HasSplit(s, p, first, Escape(t[1..]) + "\"");
      EscapeIsRead(s, p, t[0], sofar);
      StringIsRead(s, p + |first|, t[1..], sofar + [t[0]]);
      assert sofar + [t[0]] + t[1..] == sofar + t;
    }
  }

  lemma QuotedIsRead(s: string, p: nat, t: string)
    requires Has(s, p, Quoted(t))
    ensures ParseString(s, p) == Success(t, p + |Quoted(t)|)
    ensures p < |s| && s[p] == '"'
  {
    assert Quoted(t) == "\"" + (Escape(t) + "\"");
    HasSplit(s, p, "\"", Escape(t) + "\"");
    HasAt(s, p, "\"", 0);
    StringIsRead(s, p + 1, t, "");
    assert "" + t == t;
  }

  // ---------- values ----------

  /** No printed value starts with white space or a closing bracket. */
  lemma FirstChar(v: Value, width: int, level: nat, out: string)
    requires Renders(v, width, level, out) && NoDoubles(v)
    ensures out != "" && !IsSpace(out[0]) && out[0] != ']'
    ensures v.Array? ==> out[0] == '['
    ensures v.Object? ==> out[0] == '{'
  {
    match v {
      case Array(a) =>
        if a != [] {
          var body :| RendersElements(v, |a|, width, level + 1, body) && out == body + Pad(width, level) + "]";
          ElementsOpen(v, |a|, width, level + 1, body);
        }
      case Object(m) =>
        if m != map[] {
          var keys, body :| Enumerates(keys, m) && RendersFields(v, keys, width, level + 1, body)
            && out == body + Pad(width, level) + "}";
          FieldsOpen(v, keys, width, level + 1, body);
        }
      case _ =>
    }
  }

  lemma {:induction false} ElementsOpen(v: Value, i: nat, width: int, level: nat, body: string)
    requires v.Array? && i <= |v.elements| && RendersElements(v, i, width, level, body)
    ensures body != "" && body[0] == '['
  {
    if i > 0 {
      var before, item :| RendersElements(v, i - 1, width, level, before)
        && Renders(v.elements[i - 1], width, level, item)
        && body == before + Pad(width, level) + item + Separator(i - 1, |v.elements|) + Gap(width);
      ElementsOpen(v, i - 1, width, level, before);
    }
  }

  lemma {:induction false} FieldsOpen(v: Value, keys: seq<string>, width: int, level: nat, body: string)
    requires v.Object? && (forall k :: k in keys ==> k in v.fields) && RendersFields(v, keys, width, level, body)
    ensures body != "" && body[0] == '{'
  {
    if keys != [] {
      var last := |keys| - 1;
      var before, item :| RendersFields(v, keys[..last], width, level, before)
        && Renders(v.fields[keys[last]], width, level, item)
        && body == before + Pad(width, level) + FieldText(keys[last], item) + Separator(last, |v.fields|) + Gap(width);
      FieldsOpen(v, keys[..last], width, level, before);
    }
  }

  /** White space and then the closing bracket. */
  lemma ClosingIsRead(s: string, p: nat, body: string, blank: string, close: char)
    requires Has(s, p, body + blank + [close]) && AllSpaces(blank) && !IsSpace(close)
    ensures Has(s, p, body)
    ensures SkipSpace(s, p + |body|) == p + |body| + |blank| < |s| && s[p + |body| + |blank|] == close
  {
    HasSplit(s, p, body + blank, [close]);
    HasSplit(s, p, body, blank);
    HasAt(s, p + |body| + |blank|, [close], 0);
    SkipOver(s, p + |body|, blank);
  }

  /** The heart of the matter: wherever a printed value stands, `parseValue` reads it back and stops at its end. */
  lemma {:induction false} RenderedIsRead(v: Value, width: int, level: nat, out: string, s: string, p: nat)
    requires Renders(v, width, level, out) && NoDoubles(v)
    requires Has(s, p, out) && EndsNumber(s, p + |out|)
    ensures ParseValue(s, p) == Success(v, p + |out|)
    decreases v, 2, 0
  {
    hide ParseNumber, ParseString, ParseArray, ParseObject, IntText, Quoted;
    FirstChar(v, width, level, out);
    HasAt(s, p, out, 0);
    assert SkipSpace(s, p) == p;
    match v {
      case Null =>
      case Bool(b) =>
      case Int(n) => IntIsRead(s, p, n);
      case String(t) => QuotedIsRead(s, p, t);
      case Array(a) => ArrayIsRead(v, width, level, out, s, p);
      case Object(m) => ObjectIsRead(v, width, level, out, s, p);
    }
  }

  lemma {:induction false} ArrayIsRead(v: Value, width: int, level: nat, out: string, s: string, p: nat)
    requires v.Array? && Renders(v, width, level, out) && NoDoubles(v)
    requires Has(s, p, out)
    ensures ParseArray(s, p) == Success(v, p + |out|)
    decreases v, 1, 0
  {
    hide ParseArray, ParseElements, RendersElements, Pad, Has, SkipSpace, NoDoubles;
    var a := v.elements;
    if a == [] {
      BracketsAreRead(s, p);
    } else {
      var n := |a|;
      var body :| RendersElements(v, n, width, level + 1, body) && out == body + Pad(width, level) + "]";
      PadIsBlank(width, level);
      ClosingIsRead(s, p, body, Pad(width, level), ']');
      ElementsAreRead(v, n, width, level + 1, body, s, p);
    }
  }

  lemma PadIsBlank(width: int, level: nat)
    ensures AllSpaces(Pad(width, level))
  {
  }

  lemma BracketsAreRead(s: string, p: nat)
    requires Has(s, p, "[]")
    ensures ParseArray(s, p) == Success(Array([]), p + 2)
  {
    hide ParseElements;
    HasAt(s, p, "[]", 1);
    HasSplit(s, p, "[", "]");
  }

  /** What a printing loop has built after a turn that prints `item` as the `i`-th of `n`. */
  function Grown(before: string, item: string, i: nat, n: nat, width: int, level: nat): string {
    before + Pad(width, level) + item + Separator(i, n) + Gap(width)
  }

  /** The last turn of a printing loop. */
  lemma LastElement(v: Value, i: nat, width: int, level: nat, body: string) returns (before: string, item: string)
    requires v.Array? && 0 < i <= |v.elements| && RendersElements(v, i, width, level, body)
    ensures RendersElements(v, i - 1, width, level, before) && Renders(v.elements[i - 1], width, level, item)
    ensures body == Grown(before, item, i - 1, |v.elements|, width, level)
    ensures i == 1 ==> before == "[" + Gap(width)
  {
    before, item :| RendersElements(v, i - 1, width, level, before) && Renders(v.elements[i - 1], width, level, item)
      && body == before + Pad(width, level) + item + Separator(i - 1, |v.elements|) + Gap(width);
  }

  lemma LastField(v: Value, keys: seq<string>, width: int, level: nat, body: string)
    returns (before: string, item: string)
    requires v.Object? && keys != [] && (forall k :: k in keys ==> k in v.fields)
    requires RendersFields(v, keys, width, level, body)
    ensures RendersFields(v, keys[..|keys| - 1], width, level, before)
    ensures Renders(v.fields[keys[|keys| - 1]], width, level, item)
    ensures body == Grown(before, FieldText(keys[|keys| - 1], item), |keys| - 1, |v.fields|, width, level)
    ensures |keys| == 1 ==> before == "{" + Gap(width)
  {
    var last := |keys| - 1;
    before, item :| RendersFields(v, keys[..last], width, level, before)
      && Renders(v.fields[keys[last]], width, level, item)
      && body == before + Pad(width, level) + FieldText(keys[last], item) + Separator(last, |v.fields|) + Gap(width);
  }

  /** The pieces of one turn of a printing loop. */
  lemma HasPieces(s: string, p: nat, before: string, item: string, i: nat, n: nat, width: int, level: nat)
    requires Has(s, p, Grown(before, item, i, n, width, level))
    ensures
      var start := p + |before|;
      var end := start + |Pad(width, level)| + |item|;
      && Has(s, p, before) && Has(s, start, Pad(width, level)) && Has(s, start + |Pad(width, level)|, item)
      && Has(s, end, Separator(i, n)) && Has(s, end + |Separator(i, n)|, Gap(width))
      && p + |Grown(before, item, i, n, width, level)| == TurnEnd(end, i, n, width) <= |s|
  {
    hide Pad, Separator, Gap;
    var pad, separator, gap := Pad(width, level), Separator(i, n), Gap(width);
    HasSplit(s, p, before + pad + item + separator, gap);
    HasSplit(s, p, before + pad + item, separator);
    HasSplit(s, p, before + pad, item);
    HasSplit(s, p, before, pad);
  }

  /** Where the printing loop stands after the `i`-th of `n` items that ends at `e`. */
  function TurnEnd(e: nat, i: nat, n: nat, width: int): nat {
    e + |Separator(i, n)| + |Gap(width)|
  }

  /** Either another item follows after a comma, or white space and then `close`. */
  lemma AfterItem(s: string, e: nat, i: nat, n: nat, width: int, close: char)
    requires i < n && Has(s, e, Separator(i, n)) && Has(s, e + |Separator(i, n)|, Gap(width))
    requires close == ']' || close == '}'
    requires i + 1 == n ==> Peek(s, SkipSpace(s, TurnEnd(e, i, n, width))) == close
    ensures e <= |s| && EndsNumber(s, e)
    ensures i + 1 < n ==> SkipSpace(s, e) == e < |s| && s[e] == ','
                          && SkipSpace(s, e + 1) == SkipSpace(s, TurnEnd(e, i, n, width))
    ensures i + 1 == n ==> SkipSpace(s, e) == SkipSpace(s, TurnEnd(e, i, n, width))
  {
    if i + 1 < n {
      HasAt(s, e, ",", 0);
      SkipOver(s, e + 1, Gap(width));
    } else {
      SkipOver(s, e, Gap(width));
    }
  }

  lemma PadIsSkipped(s: string, p: nat, width: int, level: nat)
    requires Has(s, p, Pad(width, level))
    requires p + |Pad(width, level)| < |s| && !IsSpace(s[p + |Pad(width, level)|])
    ensures SkipSpace(s, p) == p + |Pad(width, level)|
  {
    SkipOver(s, p, Pad(width, level));
  }

  /** The opening bracket, with the first item at `q` after white space. */
  lemma ArrayStarts(s: string, p: nat, width: int, q: nat)
    requires Has(s, p, "[" + Gap(width)) && SkipSpace(s, p + |"[" + Gap(width)|) == q
    requires q < |s| && s[q] != ']'
    ensures ParseArray(s, p) == ParseElements(s, q, [])
  {
    hide ParseElements;
    HasSplit(s, p, "[", Gap(width));
    SkipOver(s, p + 1, Gap(width));
  }

  lemma ObjectStarts(s: string, p: nat, width: int, q: nat)
    requires Has(s, p, "{" + Gap(width)) && SkipSpace(s, p + |"{" + Gap(width)|) == q
    requires q < |s| && s[q] != '}'
    ensures ParseObject(s, p) == ParseFields(s, q, map[])
  {
    hide ParseFields;
    HasSplit(s, p, "{", Gap(width));
    SkipOver(s, p + 1, Gap(width));
  }

  /** One turn of the loop of `parseArray`, over the `i`-th of `n` printed elements. */
  lemma {:induction false} ElementTurn(
      v: Value, before: string, item: string, i: nat, n: nat, width: int, level: nat,
      sofar: seq<Value>, s: string, p: nat)
    requires NoDoubles(v) && Renders(v, width, level, item) && i < n
    requires Has(s, p, Grown(before, item, i, n, width, level))
    requires i + 1 == n ==> Peek(s, SkipSpace(s, p + |Grown(before, item, i, n, width, level)|)) == ']'
    ensures Has(s, p, before) && p + |before| <= |s| && p + |Grown(before, item, i, n, width, level)| <= |s|
    ensures
      var start := SkipSpace(s, p + |before|);
      var after := SkipSpace(s, p + |Grown(before, item, i, n, width, level)|);
      && start < |s| && s[start] != ']'
      && (i + 1 < n ==> ParseElements(s, start, sofar) == ParseElements(s, after, sofar + [v]))
      && (i + 1 == n ==> ParseElements(s, start, sofar) == Success(Array(sofar + [v]), after + 1))
    decreases v, 3, 0
  {
    hide ParseElements, ParseValue, Renders, Pad, Gap, Separator, Grown, Has, SkipSpace, NoDoubles;
    HasPieces(s, p, before, item, i, n, width, level);
    var q := p + |before| + |Pad(width, level)|;
    FirstChar(v, width, level, item);
    HasAt(s, q, item, 0);
    PadIsSkipped(s, p + |before|, width, level);
    AfterItem(s, q + |item|, i, n, width, ']');
    RenderedIsRead(v, width, level, item, s, q);
    ElementsStep(s, q, sofar);
  }

  /** After `i` elements the loop of `parseArray` stands behind them, having collected the first `i`; after the
      last one it leaves through the bracket that closes the array. */
  lemma {:induction false} ElementsAreRead(v: Value, i: nat, width: int, level: nat, body: string, s: string, p: nat)
    requires v.Array? && 0 < i <= |v.elements| && NoDoubles(v)
    requires RendersElements(v, i, width, level, body) && Has(s, p, body)
    requires i == |v.elements| ==> Peek(s, SkipSpace(s, p + |body|)) == ']'
    ensures i < |v.elements| ==>
      ParseArray(s, p) == ParseElements(s, SkipSpace(s, p + |body|), v.elements[..i])
    ensures i == |v.elements| ==> ParseArray(s, p) == Success(v, SkipSpace(s, p + |body|) + 1)
    decreases v, 0, i + 1
  {
    hide ParseArray, ParseElements, ParseValue, Renders, RendersElements, Pad, Gap, Grown, Separator, Has, SkipSpace;
    var a := v.elements;
    var before, item := LastElement(v, i, width, level, body);
    ElementTurn(a[i - 1], before, item, i - 1, |a|, width, level, a[..i - 1], s, p);
    assert a[..i - 1] + [a[i - 1]] == a[..i] && a[..|a|] == a;
    if i == 1 {
      ArrayStarts(s, p, width, SkipSpace(s, p + |before|));
    } else {
      ElementsAreRead(v, i - 1, width, level, before, s, p);
    }
  }

  // ---------- objects ----------

  /** The fields that have been read when `keys` have. */
  function Restrict(m: map<string, Value>, keys: seq<string>): map<string, Value>
  {
    map k | k in m && k in keys :: m[k]
  }

  lemma RestrictGrows(m: map<string, Value>, keys: seq<string>, i: nat)
    requires 0 < i <= |keys| && keys[i - 1] in m
    ensures Restrict(m, keys[..i]) == Restrict(m, keys[..i - 1])[keys[i - 1] := m[keys[i - 1]]]
    ensures i == 1 ==> Restrict(m, keys[..i - 1]) == map[]
  {
    assert keys[..i] == keys[..i - 1] + [keys[i - 1]];
  }

  lemma FieldStarts(s: string, p: nat, key: string, item: string)
    requires Has(s, p, FieldText(key, item))
    ensures p < |s| && s[p] == '"'
  {
    HasAt(s, p, FieldText(key, item), 0);
  }

  lemma FieldStands(s: string, p: nat, key: string, item: string)
    requires Has(s, p, FieldText(key, item))
    ensures
      var colon := p + |Quoted(key)|;
      && Has(s, p, Quoted(key)) && Has(s, colon, ": ") && Has(s, colon + 2, item)
      && p + |FieldText(key, item)| == colon + 2 + |item|
  {
    hide Quoted, Has;
    assert FieldText(key, item) == Quoted(key) + (": " + item);
    HasSplit(s, p, Quoted(key), ": " + item);
    HasSplit(s, p + |Quoted(key)|, ": ", item);
  }

  lemma ColonIsRead(s: string, p: nat)
    requires Has(s, p, ": ")
    ensures p + 2 <= |s| && SkipSpace(s, p) == p && Has(s, p, ":")
    ensures ParseValue(s, p + 1) == ParseValue(s, p + 2)
  {
    hide ParseValue;
    HasSplit(s, p, ":", " ");
    HasAt(s, p, ":", 0);
    SkipOver(s, p + 1, " ");
    ParseValueSkips(s, p + 1);
    ParseValueSkips(s, p + 2);
  }

  /** A printed field, given that its value is read. */
  lemma FieldOfItem(key: string, item: string, x: Value, s: string, p: nat)
    requires Has(s, p, FieldText(key, item))
    requires
      var start := p + |Quoted(key)| + 2;
      start <= |s| && ParseValue(s, start) == Success(x, start + |item|)
    ensures ParseField(s, p) == Success((key, x), p + |FieldText(key, item)|)
    ensures p < |s| && s[p] == '"'
  {
    hide ParseValue, ParseString, SkipSpace, Quoted, Has, FieldText;
    FieldStands(s, p, key, item);
    QuotedIsRead(s, p, key);
    ColonIsRead(s, p + |Quoted(key)|);
  }

  /** One printed field, wherever it stands. */
  lemma {:induction false} FieldIsRead(v: Value, key: string, width: int, level: nat, item: string, s: string, p: nat)
    requires v.Object? && key in v.fields && NoDoubles(v) && Renders(v.fields[key], width, level, item)
    requires Has(s, p, FieldText(key, item)) && EndsNumber(s, p + |FieldText(key, item)|)
    ensures ParseField(s, p) == Success((key, v.fields[key]), p + |FieldText(key, item)|)
    ensures p < |s| && s[p] == '"'
    decreases v, 0, 0
  {
    assert NoDoubles(v.fields[key]);
    hide ParseField, ParseValue, Renders, Quoted, NoDoubles, EndsNumber, Has, FieldText;
    FieldStands(s, p, key, item);
    RenderedIsRead(v.fields[key], width, level, item, s, p + |Quoted(key)| + 2);
    FieldOfItem(key, item, v.fields[key], s, p);
  }

  lemma {:induction false} ObjectIsRead(v: Value, width: int, level: nat, out: string, s: string, p: nat)
    requires v.Object? && Renders(v, width, level, out) && NoDoubles(v)
    requires Has(s, p, out)
    ensures ParseObject(s, p) == Success(v, p + |out|)
    decreases v, 1, 0
  {
    hide ParseObject, ParseFields, ParseField, RendersFields, Pad, Has, SkipSpace, Restrict, NoDoubles;
    var m := v.fields;
    if m == map[] {
      BracesAreRead(s, p);
    } else {
      hide Renders;
      var keys, body := Fields(v, width, level, out);
      ClosingIsRead(s, p, body, Pad(width, level), '}');
      assert keys[..|keys|] == keys;
      FieldsAreRead(v, keys, |keys|, width, level + 1, body, s, p);
      RestrictAll(m, keys);
    }
  }

  lemma BracesAreRead(s: string, p: nat)
    requires Has(s, p, "{}")
    ensures ParseObject(s, p) == Success(Object(map[]), p + 2)
  {
    hide ParseFields;
    HasAt(s, p, "{}", 1);
    HasSplit(s, p, "{", "}");
  }

  lemma Fields(v: Value, width: int, level: nat, out: string) returns (keys: seq<string>, body: string)
    requires v.Object? && v.fields != map[] && Renders(v, width, level, out)
    ensures Enumerates(keys, v.fields) && |keys| == |v.fields| > 0
    ensures RendersFields(v, keys, width, level + 1, body) && out == body + Pad(width, level) + "}"
    ensures AllSpaces(Pad(width, level))
  {
    keys, body :| Enumerates(keys, v.fields) && RendersFields(v, keys, width, level + 1, body)
      && out == body + Pad(width, level) + "}";
    EnumerationSize(keys, v.fields);
  }

  lemma RestrictAll(m: map<string, Value>, keys: seq<string>)
    requires Enumerates(keys, m)
    ensures Restrict(m, keys) == m
  {
  }

  lemma {:induction false} EnumerationSize(keys: seq<string>, m: map<string, Value>)
    requires Enumerates(keys, m)
    ensures |keys| == |m|
  {
    DistinctSize(keys);
    assert (set k | k in keys) == m.Keys;
  }

  /** One turn of the loop of `parseObject`, over the `i`-th of `n` printed fields. */
  lemma {:induction false} FieldTurn(
      v: Value, key: string, before: string, item: string, i: nat, n: nat, width: int, level: nat,
      sofar: map<string, Value>, s: string, p: nat)
    requires v.Object? && key in v.fields && NoDoubles(v) && Renders(v.fields[key], width, level, item)
    requires i < n && Has(s, p, Grown(before, FieldText(key, item), i, n, width, level))
    requires i + 1 == n ==>
      Peek(s, SkipSpace(s, p + |Grown(before, FieldText(key, item), i, n, width, level)|)) == '}'
    ensures Has(s, p, before) && p + |before| <= |s|
    ensures p + |Grown(before, FieldText(key, item), i, n, width, level)| <= |s|
    ensures
      var start := SkipSpace(s, p + |before|);
      var after := SkipSpace(s, p + |Grown(before, FieldText(key, item), i, n, width, level)|);
      && start < |s| && s[start] == '"'
      && (i + 1 < n ==> ParseFields(s, start, sofar) == ParseFields(s, after, sofar[key := v.fields[key]]))
      && (i + 1 == n ==> ParseFields(s, start, sofar) == Success(Object(sofar[key := v.fields[key]]), after + 1))
    decreases v, 0, 1
  {
    hide ParseFields, ParseField, Renders, Pad, Gap, Separator, Grown, FieldText, Has, SkipSpace, NoDoubles;
    var field := FieldText(key, item);
    HasPieces(s, p, before, field, i, n, width, level);
    var q := p + |before| + |Pad(width, level)|;
    FieldStarts(s, q, key, item);
    PadIsSkipped(s, p + |before|, width, level);
    AfterItem(s, q + |field|, i, n, width, '}');
    FieldIsRead(v, key, width, level, item, s, q);
    FieldsStep(s, q, sofar);
  }

  /** As `ElementsAreRead`, for the loop of `parseObject` after the first `i` keys. */
  lemma {:induction false} FieldsAreRead(
      v: Value, keys: seq<string>, i: nat, width: int, level: nat, body: string, s: string, p: nat)
    requires v.Object? && 0 < i <= |keys| == |v.fields| && (forall k :: k in keys ==> k in v.fields) && NoDoubles(v)
    requires RendersFields(v, keys[..i], width, level, body) && Has(s, p, body)
    requires i == |keys| ==> Peek(s, SkipSpace(s, p + |body|)) == '}'
    ensures i < |keys| ==>
      ParseObject(s, p) == ParseFields(s, SkipSpace(s, p + |body|), Restrict(v.fields, keys[..i]))
    ensures i == |keys| ==>
      ParseObject(s, p) == Success(Object(Restrict(v.fields, keys[..i])), SkipSpace(s, p + |body|) + 1)
    decreases v, 0, i + 1
  {
    hide ParseObject, ParseFields, ParseField, Renders, RendersFields, Pad, Gap, Separator, Grown, FieldText, NoDoubles,
         Has, SkipSpace, Restrict;
    var m, key := v.fields, keys[i - 1];
    assert keys[..i][..i - 1] == keys[..i - 1] && keys[..i][i - 1] == key;
    var before, item := LastField(v, keys[..i], width, level, body);
    RestrictGrows(m, keys, i);
    FieldTurn(v, key, before, item, i - 1, |keys|, width, level, Restrict(m, keys[..i - 1]), s, p);
    if i == 1 {
      ObjectStarts(s, p, width, SkipSpace(s, p + |before|));
    } else {
      FieldsAreRead(v, keys, i - 1, width, level, before, s, p);
    }
  }

  // ---------- the law ----------

  /** Strict parsing gives back every value without doubles from every text the generator may print for it;
      parsing that is not strict gives back nothing, as it never looks at the text. */
  lemma ParseAfterGenerate(v: Value, pretty: bool, indentWidth: int, out: string, isStrict: bool)
    requires NoDoubles(v) && Renders(v, Width(pretty, indentWidth), 0, out)
    ensures isStrict ==> Parse(out, isStrict) == Success(v, |out|)
    ensures !isStrict ==> Parse(out, isStrict) == Failure
  {
    if isStrict {
      assert out[0..0 + |out|] == out;
      RenderedIsRead(v, Width(pretty, indentWidth), 0, out, out, 0);
    }
  }
}
