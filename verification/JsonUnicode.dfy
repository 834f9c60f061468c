/** What the `\u` escapes of breUtils/Json/json_parse.hpp decode to. The four characters are taken one position
    late (line 195), so an escape rarely means what section 7 of RFC 8259 says; these lemmas say when it does. */
module JsonUnicode {
  import opened Chars
  import opened JsonSyntax
  import opened Utf8

  predicate FourHexDigits(s: string, p: nat) {
    p + 4 <= |s| && IsHexDigit(s[p]) && IsHexDigit(s[p + 1]) && IsHexDigit(s[p + 2]) && IsHexDigit(s[p + 3])
  }

  /** The code unit that four hexadecimal digits denote. */
  function Hex4(s: string, p: nat): (n: nat)
    requires FourHexDigits(s, p)
    ensures n <= 0xFFFF
  {
    HexValue(s[p]) * 0x1000 + HexValue(s[p + 1]) * 0x100 + HexValue(s[p + 2]) * 0x10 + HexValue(s[p + 3])
  }

  /** The code point that `ParseUnicode` works with instead: the first digit is lost, and the character after
      the escape counts if it happens to be a hexadecimal digit. */
  lemma CodePointRead(s: string, p: nat)
    requires p + 5 < |s| && FourHexDigits(s, p + 1)
    ensures
      var rest := Hex4(s, p + 1) % 0x1000;
      HexPrefix(s[p + 2..p + 6]) == if IsHexDigit(s[p + 5]) then rest * 0x10 + HexValue(s[p + 5]) else rest
  {
    var t := s[p + 2..p + 6];
    FourCharacters(t);
  }

  lemma FourCharacters(t: string)
    requires |t| == 4 && IsHexDigit(t[0]) && IsHexDigit(t[1]) && IsHexDigit(t[2])
    ensures
      var rest := HexValue(t[0]) * 0x100 + HexValue(t[1]) * 0x10 + HexValue(t[2]);
      HexPrefix(t) == if IsHexDigit(t[3]) then rest * 0x10 + HexValue(t[3]) else rest
  {
    hide HexValue;
    var a, b, c := HexValue(t[0]), HexValue(t[1]), HexValue(t[2]);
    assert t[1..][1..] == t[2..] && t[2..][1..] == t[3..] && t[3..] == [t[3]] && t[3..][1..] == "";
    assert HexPrefix(t) == HexPrefixFrom(t[1..], a);
    assert HexPrefixFrom(t[1..], a) == HexPrefixFrom(t[2..], a * 16 + b);
    assert HexPrefixFrom(t[2..], a * 16 + b) == HexPrefixFrom(t[3..], (a * 16 + b) * 16 + c);
  }

  /** All five characters after the `u` are hexadecimal digits of one value. */
  predicate FiveAlike(s: string, p: nat)
    requires p + 5 < |s| && FourHexDigits(s, p + 1)
  {
    IsHexDigit(s[p + 5]) &&
    HexValue(s[p + 1]) == HexValue(s[p + 2]) == HexValue(s[p + 3]) == HexValue(s[p + 4]) == HexValue(s[p + 5])
  }

  /** The escapes below U+1000 that no hexadecimal digit follows, and the freak case of five equal digits. */
  predicate Survives(s: string, p: nat)
    requires p + 5 < |s| && FourHexDigits(s, p + 1)
  {
    if IsHexDigit(s[p + 5]) then FiveAlike(s, p) else HexValue(s[p + 1]) == 0
  }

  lemma OneLateIsRightWhen(s: string, p: nat)
    requires p + 5 < |s| && FourHexDigits(s, p + 1)
    ensures HexPrefix(s[p + 2..p + 6]) == Hex4(s, p + 1) <==> Survives(s, p)
  {
    hide HexPrefix, IsHexDigit, HexValue;
    CodePointRead(s, p);
    var h1, h2, h3, h4 := HexValue(s[p + 1]), HexValue(s[p + 2]), HexValue(s[p + 3]), HexValue(s[p + 4]);
    if IsHexDigit(s[p + 5]) {
      FiveDigits(h1, h2, h3, h4, HexValue(s[p + 5]));
    } else {
      FiveDigits(h1, h2, h3, h4, 0);
    }
  }

  /** Dropping the first of five digits instead of the last changes the number, unless they are all alike. */
  lemma FiveDigits(h1: nat, h2: nat, h3: nat, h4: nat, c: nat)
    requires h1 < 16 && h2 < 16 && h3 < 16 && h4 < 16 && c < 16
    ensures
      var rest := h2 * 0x100 + h3 * 0x10 + h4;
      && (h1 * 0x1000 + rest) % 0x1000 == rest
      && (rest * 0x10 + c == h1 * 0x1000 + rest <==> h1 == h2 == h3 == h4 == c)
  {
    var two, three := h2 * 0x10 + h3, (h2 * 0x10 + h3) * 0x10 + h4;
    SameDigits(three, c, (h1 * 0x10 + h2) * 0x10 + h3, h4);
    SameDigits(two, h4, h1 * 0x10 + h2, h3);
    SameDigits(h2, h3, h1, h2);
    LowDigits(h1, three);
  }

  lemma SameDigits(a: nat, x: nat, b: nat, y: nat)
    requires x < 16 && y < 16
    ensures a * 0x10 + x == b * 0x10 + y <==> a == b && x == y
  {
  }

  lemma LowDigits(a: nat, x: nat)
    requires x < 0x1000
    ensures (a * 0x1000 + x) % 0x1000 == x
  {
  }

  /** An escape that is not a surrogate is decoded to the character it denotes exactly when it survives. */
  lemma EscapeIsDecodedWhen(s: string, p: nat)
    requires p + 5 < |s| && s[p] == 'u' && FourHexDigits(s, p + 1)
    requires IsScalar(Hex4(s, p + 1))
    ensures ParseUnicode(s, p) == Success(Encode(Hex4(s, p + 1)), p + 5) <==> Survives(s, p)
  {
    OneLateIsRightWhen(s, p);
    CodePointRead(s, p);
    var read := HexPrefix(s[p + 2..p + 6]);
    if !IsHighSurrogate(read) && read != Hex4(s, p + 1) && Encode(read) == Encode(Hex4(s, p + 1)) {
      EncodeIsInjective(read, Hex4(s, p + 1));
    }
  }

  /** No surrogate pair is ever decoded: the high surrogate is read as a code point below U+1000, and the low
      one is left to the next escape. */
  lemma PairIsNeverDecoded(s: string, p: nat)
    requires p + 11 < |s| && s[p] == 'u' && FourHexDigits(s, p + 1) && IsHighSurrogate(Hex4(s, p + 1))
    requires s[p + 5] == '\\' && s[p + 6] == 'u' && FourHexDigits(s, p + 7) && IsLowSurrogate(Hex4(s, p + 7))
    ensures ParseUnicode(s, p) == Success(Encode(Hex4(s, p + 1) % 0x1000), p + 5)
    ensures ParseUnicode(s, p) != Success(Encode(Combine(Hex4(s, p + 1), Hex4(s, p + 7))), p + 11)
  {
    CodePointRead(s, p);
  }

  /** The escape of `A`, followed by the letter `B`, is read as U+041B. */
  lemma MisreadExample()
    ensures ParseString("\"\\u0041B\"", 0) == Success(Encode(0x41B) + "B", 9)
    ensures Encode(0x41B) + "B" != "AB"
  {
    hide Encode, HexPrefix;
    var s := "\"\\u0041B\"";
    CodePointRead(s, 2);
    assert ParseUnicode(s, 2) == Success(Encode(0x41B), 7);
    var first := Encode(0x41B);
    assert "" + first == first;
    assert ParseChars(s, 1, "") == ParseChars(s, 7, first);
    assert s[7] == 'B' && s[8] == '"';
    assert ParseChars(s, 7, first) == ParseChars(s, 8, first + ['B']);
  }
}
