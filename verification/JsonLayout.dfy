/** What the printer of breUtils/Json/json_generator.hpp writes, byte by byte. */
module JsonLayout {
  import opened Texts
  import opened JsonValue
  import opened JsonText
  import JsonComments
  import opened Chars
  import G = JsonGrammar
  import JsonReading
  import R = JsonRoundTrip

  // ---------- strings ----------

  /** Escaping works on each character by itself. */
  lemma {:induction false} EscapeSplits(s: string, t: string)
    ensures Escape(s + t) == Escape(s) + Escape(t)
  {
    hide EscapeChar;
    if s == "" {
      assert s + t == t && "" + Escape(t) == Escape(t);
    } else {
      EscapeSplits(s[1..], t);
      assert (s + t)[0] == s[0] && (s + t)[1..] == s[1..] + t;
      assert EscapeChar(s[0]) + (Escape(s[1..]) + Escape(t)) == (EscapeChar(s[0]) + Escape(s[1..])) + Escape(t);
    }
  }

  /** The seven bytes that are written as a backslash (92) and another character, and the rest as themselves. */
  lemma EscapeOfOne(c: char)
    ensures
      var code := c as int;
      Escape([c]) ==
        if code == 8 then [92 as char, 98 as char]
        else if code == 9 then [92 as char, 116 as char]
        else if code == 10 then [92 as char, 110 as char]
        else if code == 12 then [92 as char, 102 as char]
        else if code == 13 then [92 as char, 114 as char]
        else if code == 34 then [92 as char, 34 as char]
        else if code == 92 then [92 as char, 92 as char]
        else [c]
  {
    assert [c][1..] == "" && EscapeChar(c) + "" == EscapeChar(c);
  }

  /** No control byte that has an escape is left in an escaped text ... */
  lemma {:induction false} NothingRaw(s: string)
    ensures forall i :: 0 <= i < |Escape(s)| ==>
      Escape(s)[i] as int != 8 && Escape(s)[i] as int != 9 && Escape(s)[i] as int != 10
      && Escape(s)[i] as int != 12 && Escape(s)[i] as int != 13
  {
    if s != "" {
      NothingRaw(s[1..]);
      EscapeOfOne(s[0]);
      assert [s[0]] + s[1..] == s;
      EscapeSplits([s[0]], s[1..]);
      hide Escape;
    }
  }

  /** ... and it is the inside of a literal as section 7 of RFC 8259 has it. */
  lemma {:induction false} EscapedIsBody(s: string)
    ensures JsonComments.IsBody(Escape(s))
  {
    if s != "" {
      EscapedIsBody(s[1..]);
      EscapeOfOne(s[0]);
      assert [s[0]] + s[1..] == s;
      EscapeSplits([s[0]], s[1..]);
      var rest := Escape(s[1..]);
      assert |Escape([s[0]])| == 2 ==> Escape(s)[2..] == rest;
      assert |Escape([s[0]])| == 1 ==> Escape(s)[1..] == rest;
      hide Escape;
    }
  }

  // ---------- arrays and objects ----------

  /** Texts with something between them. */
  function Joined(texts: seq<string>, between: string): string {
    if texts == [] then ""
    else if |texts| == 1 then texts[0]
    else Joined(texts[..|texts| - 1], between) + between + texts[|texts| - 1]
  }

  /** Each text behind `n` blanks. */
  function Indented(texts: seq<string>, n: nat): (r: seq<string>)
    ensures |r| == |texts| && forall i :: 0 <= i < |r| ==> r[i] == seq(n, _ => ' ') + texts[i]
  {
    seq(|texts|, i requires 0 <= i < |texts| => seq(n, _ => ' ') + texts[i])
  }

  /** Items between brackets: on lines of their own, indented by `width` for each level, or on one line. */
  function Framed(open: string, items: seq<string>, close: string, width: int, level: nat): string {
    if width > 0 then
      open + "\n" + Joined(Indented(items, (level + 1) * width), ",\n") + "\n" + seq(level * width, _ => ' ') + close
    else open + Joined(items, ",") + close
  }

  /** What has been written of the items before the last one is. */
  function Begun(open: string, items: seq<string>, width: int, level: nat): string {
    if width > 0 then open + "\n" + Ended(Indented(items, level * width), ",\n")
    else open + Ended(items, ",")
  }

  /** Texts with something behind each of them. */
  function Ended(texts: seq<string>, end: string): string {
    if texts == [] then "" else Ended(texts[..|texts| - 1], end) + texts[|texts| - 1] + end
  }

  lemma {:induction false} EndedIsJoined(texts: seq<string>, last: string, between: string)
    ensures Ended(texts, between) + last == Joined(texts + [last], between)
  {
    var all := texts + [last];
    assert all[..|all| - 1] == texts && all[|all| - 1] == last;
    if texts == [] {
      assert "" + last == last;
    } else {
      var n := |texts| - 1;
      EndedIsJoined(texts[..n], texts[n], between);
      assert texts[..n] + [texts[n]] == texts;
      assert Ended(texts, between) == Ended(texts[..n], between) + texts[n] + between;
    }
  }

  lemma EndedGrows(texts: seq<string>, last: string, end: string)
    ensures Ended(texts + [last], end) == Ended(texts, end) + last + end
  {
    var all := texts + [last];
    assert all[..|all| - 1] == texts && all[|all| - 1] == last;
  }

  lemma IndentedGrows(texts: seq<string>, last: string, n: nat)
    ensures Indented(texts + [last], n) == Indented(texts, n) + [seq(n, _ => ' ') + last]
  {
  }

  lemma PadIs(width: int, level: nat)
    ensures Pad(width, level) == if width > 0 then seq(level * width, _ => ' ') else ""
  {
    if width > 0 {
      assert Pad(width, level) == seq(level * width, _ => ' ');
    }
  }

  /** One more item that is not the last one. */
  lemma BegunGrows(open: string, items: seq<string>, item: string, width: int, level: nat)
    ensures Begun(open, items + [item], width, level)
         == Begun(open, items, width, level) + Pad(width, level) + item + "," + Gap(width)
  {
    PadIs(width, level);
    if width > 0 {
      var n := level * width;
      var line := seq(n, _ => ' ') + item;
      IndentedGrows(items, item, n);
      EndedGrows(Indented(items, n), line, ",\n");
      assert ",\n" == "," + "\n";
    } else {
      EndedGrows(items, item, ",");
      var b := Begun(open, items, width, level);
      assert b + "" == b && b + item + "," + "" == b + item + ",";
    }
  }

  /** The last item, and the bracket behind it. */
  lemma BegunIsFramed(open: string, items: seq<string>, item: string, close: string, width: int, level: nat)
    ensures Begun(open, items, width, level + 1) + Pad(width, level + 1) + item + "" + Gap(width)
            + Pad(width, level) + close
         == Framed(open, items + [item], close, width, level)
  {
    hide Begun, Framed, Joined, Ended, Indented;
    if width > 0 {
      BegunIsIndented(open, items, item, close, width, level);
    } else {
      BegunIsCompact(open, items, item, close, width, level);
    }
  }

  lemma BegunIsCompact(open: string, items: seq<string>, item: string, close: string, width: int, level: nat)
    requires width <= 0
    ensures Begun(open, items, width, level + 1) + Pad(width, level + 1) + item + "" + Gap(width)
            + Pad(width, level) + close
         == Framed(open, items + [item], close, width, level)
  {
    hide Joined, Ended;
    var b := Begun(open, items, width, level + 1);
    EndedIsJoined(items, item, ",");
    assert b + "" + item + "" + "" + "" == open + (Ended(items, ",") + item);
  }

  lemma BegunIsIndented(open: string, items: seq<string>, item: string, close: string, width: int, level: nat)
    requires width > 0
    ensures Begun(open, items, width, level + 1) + Pad(width, level + 1) + item + "" + Gap(width)
            + Pad(width, level) + close
         == Framed(open, items + [item], close, width, level)
  {
    hide Joined, Ended, Indented;
    PadIs(width, level + 1);
    PadIs(width, level);
    var n := (level + 1) * width;
    var pad, texts := seq(n, _ => ' '), Indented(items, n);
    IndentedGrows(items, item, n);
    EndedIsJoined(texts, pad + item, ",\n");
    FiveTexts(open + "\n", Ended(texts, ",\n"), pad, item);
  }

  lemma FiveTexts(a: string, b: string, c: string, d: string)
    ensures a + b + c + d + "" == a + (b + (c + d))
  {
  }

  // ---------- what the loops leave behind ----------

  /** Each of the items is a text of its element. */
  ghost predicate AreTexts(items: seq<string>, elements: seq<Value>, width: int, level: nat) {
    |items| <= |elements| && forall k :: 0 <= k < |items| ==> Renders(elements[k], width, level, items[k])
  }

  /** What one turn of a loop adds. */
  lemma GrownIs(before: string, item: string, i: nat, n: nat, width: int, level: nat)
    ensures R.Grown(before, item, i, n, width, level)
         == before + Pad(width, level) + item + (if i + 1 < n then "," else "") + Gap(width)
  {
    hide Pad, Gap;
  }

  lemma {:induction false} ElementsLayout(v: Value, i: nat, width: int, level: nat, out: string)
      returns (items: seq<string>)
    requires v.Array? && i < |v.elements| && RendersElements(v, i, width, level, out)
    ensures |items| == i && AreTexts(items, v.elements, width, level) && out == Begun("[", items, width, level)
    decreases i
  {
    hide Renders, RendersElements, Begun, Pad, Gap, R.Grown;
    if i == 0 {
      items := [];
      NothingBegun("[", width, level);
      NoElements(v, width, level, out);
    } else {
      var before, item := R.LastElement(v, i, width, level, out);
      var front := ElementsLayout(v, i - 1, width, level, before);
      items := front + [item];
      GrownIs(before, item, i - 1, |v.elements|, width, level);
      BegunGrows("[", front, item, width, level);
    }
  }

  lemma NoElements(v: Value, width: int, level: nat, out: string)
    requires v.Array? && RendersElements(v, 0, width, level, out)
    ensures out == "[" + Gap(width)
  {
  }

  lemma NoFields(v: Value, width: int, level: nat, out: string)
    requires v.Object? && RendersFields(v, [], width, level, out)
    ensures out == "{" + Gap(width)
  {
  }

  lemma NothingBegun(open: string, width: int, level: nat)
    ensures Begun(open, [], width, level) == open + Gap(width)
  {
    if width > 0 {
      assert Indented([], level * width) == [];
      assert open + "\n" + "" == open + "\n";
    }
  }

  lemma ArrayBody(v: Value, width: int, level: nat, out: string) returns (body: string)
    requires v.Array? && v.elements != [] && Renders(v, width, level, out)
    ensures RendersElements(v, |v.elements|, width, level + 1, body) && out == body + Pad(width, level) + "]"
  {
    hide RendersElements, Pad;
    body :| RendersElements(v, |v.elements|, width, level + 1, body) && out == body + Pad(width, level) + "]";
  }

  /** A printed array: its items between brackets, one level further in. */
  lemma ArrayLayout(v: Value, width: int, level: nat, out: string) returns (items: seq<string>)
    requires v.Array? && v.elements != [] && Renders(v, width, level, out)
    ensures |items| == |v.elements| && AreTexts(items, v.elements, width, level + 1)
    ensures out == Framed("[", items, "]", width, level)
  {
    hide Renders, RendersElements, Begun, Pad, Gap, Framed, R.Grown;
    var n := |v.elements|;
    var body := ArrayBody(v, width, level, out);
    var before, item := R.LastElement(v, n, width, level + 1, body);
    var front := ElementsLayout(v, n - 1, width, level + 1, before);
    items := front + [item];
    GrownIs(before, item, n - 1, n, width, level + 1);
    BegunIsFramed("[", front, item, "]", width, level);
  }

  /** The texts of fields: the key as a literal, a colon, one blank and the value. */
  function FieldTexts(keys: seq<string>, items: seq<string>): (r: seq<string>)
    requires |keys| == |items|
    ensures |r| == |keys|
  {
    seq(|keys|, i requires 0 <= i < |keys| => "\"" + Escape(keys[i]) + "\"" + ": " + items[i])
  }

  ghost predicate AreFields(items: seq<string>, keys: seq<string>, v: Value, width: int, level: nat)
    requires v.Object?
  {
    |items| == |keys| && forall k :: 0 <= k < |items| ==>
      keys[k] in v.fields && Renders(v.fields[keys[k]], width, level, items[k])
  }

  lemma {:induction false} FieldsLayout(v: Value, keys: seq<string>, width: int, level: nat, out: string)
      returns (items: seq<string>)
    requires v.Object? && (forall k :: k in keys ==> k in v.fields) && |keys| < |v.fields|
    requires RendersFields(v, keys, width, level, out)
    ensures AreFields(items, keys, v, width, level) && out == Begun("{", FieldTexts(keys, items), width, level)
    decreases |keys|
  {
    hide Renders, RendersFields, Begun, Pad, Gap, R.Grown, FieldText, FieldTexts;
    if keys == [] {
      items := [];
      NoFieldTexts();
      NothingBegun("{", width, level);
      NoFields(v, width, level, out);
    } else {
      var last := |keys| - 1;
      var before, item := R.LastField(v, keys, width, level, out);
      var front := FieldsLayout(v, keys[..last], width, level, before);
      items := front + [item];
      MoreFieldTexts(keys, front, item);
      GrownIs(before, FieldText(keys[last], item), last, |v.fields|, width, level);
      BegunGrows("{", FieldTexts(keys[..last], front), FieldText(keys[last], item), width, level);
    }
  }

  lemma NoFieldTexts()
    ensures FieldTexts([], []) == []
  {
  }

  lemma MoreFieldTexts(keys: seq<string>, front: seq<string>, item: string)
    requires |keys| == |front| + 1
    ensures FieldTexts(keys, front + [item])
         == FieldTexts(keys[..|front|], front) + [FieldText(keys[|front|], item)]
  {
    hide Escape;
    assert FieldText(keys[|front|], item) == "\"" + Escape(keys[|front|]) + "\"" + ": " + item;
  }

  /** A printed object: its fields between braces, in the order of some enumeration of its keys. */
  lemma ObjectLayout(v: Value, width: int, level: nat, out: string) returns (keys: seq<string>, items: seq<string>)
    requires v.Object? && v.fields != map[] && Renders(v, width, level, out)
    ensures Enumerates(keys, v.fields) && AreFields(items, keys, v, width, level + 1)
    ensures out == Framed("{", FieldTexts(keys, items), "}", width, level)
  {
    hide Renders, RendersFields, Begun, Pad, Gap, Framed, R.Grown, FieldText, FieldTexts;
    var body;
    keys, body := R.Fields(v, width, level, out);
    var n := |keys|;
    var before, item := R.LastField(v, keys, width, level + 1, body);
    var front := FieldsLayout(v, keys[..n - 1], width, level + 1, before);
    items := front + [item];
    MoreFieldTexts(keys, front, item);
    var texts, text := FieldTexts(keys[..n - 1], front), FieldText(keys[n - 1], item);
    GrownIs(before, text, n - 1, |v.fields|, width, level + 1);
    BegunIsFramed("{", texts, text, "}", width, level);
  }

  /** Whatever is empty has no line of its own. */
  lemma EmptyLayout(width: int, level: nat, out: string)
    ensures Renders(Array([]), width, level, out) <==> out == "[]"
    ensures Renders(Object(map[]), width, level, out) <==> out == "{}"
  {
  }

  /** The texts of values without parts; an integer has no leading zero. */
  lemma ScalarLayout(b: bool, s: string, width: int, level: nat, out: string)
    ensures Renders(Null, width, level, out) <==> out == "null"
    ensures Renders(Bool(b), width, level, out) <==> out == if b then "true" else "false"
    ensures Renders(String(s), width, level, out) <==> out == "\"" + Escape(s) + "\""
  {
    hide Escape;
  }

  lemma IntLayout(n: Int32, width: int, level: nat, out: string)
    requires Renders(Int(n), width, level, out)
    ensures if n < 0 then out != "" && out[0] == '-' && IsNumeral(out[1..], 0 - n) else IsNumeral(out, n)
  {
    var size: int := n;
    if n < 0 {
      NaturalIsNumeral(0 - size);
    } else {
      NaturalIsNumeral(size);
    }
  }

  /** Decimal digits that denote `n`, the first of them 0 only in "0" itself. */
  predicate IsNumeral(digits: string, n: nat) {
    && digits != "" && G.IsDecimal(digits) && G.Decimal(digits) == n
    && (digits[0] == '0' ==> |digits| == 1)
  }

  lemma NaturalIsNumeral(n: nat)
    ensures IsNumeral(NatText(n), n)
  {
    NatTextDenotes(n);
    JsonReading.DecimalIsValue(NatText(n));
    NoLeadingZero(n);
  }

  lemma {:induction false} NoLeadingZero(n: nat)
    ensures NatText(n)[0] == '0' ==> n == 0 && |NatText(n)| == 1
  {
    if n >= 10 {
      NoLeadingZero(n / 10);
    }
  }
}
