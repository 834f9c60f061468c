/** What the parser of breUtils/Json/json_parse.hpp computes, as functions of the input and a position.
    `JsonParser` proves its methods, which advance a cursor, against these functions. */
module JsonSyntax {
  import opened Chars
  import opened Texts
  import opened JsonValue
  import Utf8

  /** Every exception the parser throws is a `Failure`. */
  datatype Parsed<+T> = Failure | Success(value: T, pos: nat)

  /** `input_[position_]` on a `const std::string`, which may be read up to and including its size. */
  function Peek(s: string, p: nat): char
    requires p <= |s|
  {
    if p < |s| then s[p] else '\0'
  }

  function SkipSpace(s: string, p: nat): (q: nat)
    requires p <= |s|
    ensures p <= q <= |s|
    ensures AllSpaces(s[p..q])
    ensures q < |s| ==> !IsSpace(s[q])
    decreases |s| - p
  {
    if p < |s| && IsSpace(s[p]) then SkipSpace(s, p + 1) else p
  }

  function SkipDigits(s: string, p: nat): (q: nat)
    requires p <= |s|
    ensures p <= q <= |s|
    ensures AllDigits(s[p..q])
    ensures q < |s| ==> !IsDigit(s[q])
    decreases |s| - p
  {
    if p < |s| && IsDigit(s[p]) then SkipDigits(s, p + 1) else p
  }

  function ParseWord(s: string, p: nat, word: string, v: Value): (r: Parsed<Value>)
    requires word != ""
    ensures r.Success? ==> p < r.pos <= |s|
  {
    if Has(s, p, word) then Success(v, p + |word|) else Failure
  }

  // ---------- numbers ----------

  /** The end of the fraction, if there is one. */
  function FractionEnd(s: string, p: nat): (q: nat)
    requires p <= |s|
    ensures p <= q <= |s|
  {
    if p < |s| && s[p] == '.' then SkipDigits(s, p + 1) else p
  }

  /** The end of the exponent, if there is one; its digits may be missing. */
  function ExponentEnd(s: string, p: nat): (q: nat)
    requires p <= |s|
    ensures p <= q <= |s|
  {
    if p < |s| && (s[p] == 'e' || s[p] == 'E') then
      if p + 1 < |s| && (s[p + 1] == '+' || s[p + 1] == '-') then SkipDigits(s, p + 2)
      else SkipDigits(s, p + 1)
    else p
  }

  /** Where the digits of a number start. */
  function AfterMinus(s: string, p: nat): (q: nat)
    requires p < |s|
    ensures p <= q <= |s|
  {
    if s[p] == '-' then p + 1 else p
  }

  /** `std::stod` needs a digit before or after the point; a text without point and exponent that fits an
      `int` is one, and any other such text goes to `std::stod` too. */
  function ParseNumber(s: string, p: nat): (r: Parsed<Value>)
    requires p < |s| && (IsDigit(s[p]) || s[p] == '-')
    ensures r.Success? ==> p < r.pos <= |s|
  {
    var start := AfterMinus(s, p);
    var whole := SkipDigits(s, start);
    var fraction := FractionEnd(s, whole);
    var end := ExponentEnd(s, fraction);
    if end != whole then
      if whole > start || fraction > whole + 1 then Success(Double(s[p..end]), end) else Failure
    else if whole == start then Failure
    else
      var n: int := NatValue(s[start..whole]);
      var signed := if s[p] == '-' then -n else n;
      Success(if INT_MIN <= signed <= INT_MAX then Int(signed) else Double(s[p..end]), end)
  }

  // ---------- strings ----------

  /** `std::from_chars` in base 16: the longest prefix of hexadecimal digits decides. */
  function HexPrefix(s: string): (n: nat)
    decreases |s|
  {
    HexPrefixFrom(s, 0)
  }

  function HexPrefixFrom(s: string, n: nat): nat
    decreases |s|
  {
    if s != "" && IsHexDigit(s[0]) then HexPrefixFrom(s[1..], n * 16 + HexValue(s[0])) else n
  }

  /** A `\u` escape whose `u` is at `p`: the text it appends and the position after it. The four characters
      are taken from `p + 2`, one late, and `p + 5` is where the reading continues. A text with no
      hexadecimal digit at all leaves the original's code point uninitialised; it fails here. */
  function ParseUnicode(s: string, p: nat): (r: Parsed<string>)
    requires p < |s|
    ensures r.Success? ==> p + 5 <= r.pos <= |s|
  {
    if p + 5 >= |s| then Failure
    else if !IsHexDigit(s[p + 2]) then Failure
    else
      var high := HexPrefix(s[p + 2..p + 6]);
      if !Utf8.IsHighSurrogate(high) then Success(Utf8.Encode(high), p + 5)
      else if p + 11 >= |s| || s[p + 5] != '\\' || s[p + 6] != 'u' then Failure
      else
        var low := HexPrefix(s[p + 7..p + 11]);
        if !IsHexDigit(s[p + 7]) || !Utf8.IsLowSurrogate(low) then Failure
        else Success(Utf8.Encode(Utf8.Combine(high, low)), p + 11)
  }

  /** The character that `\c` stands for, for every escape of one character. */
  function SimpleEscape(c: char): string {
    match c
    case '"' => "\""
    case '\\' => "\\"
    case '/' => "/"
    case 'b' => [8 as char]
    case 'f' => [12 as char]
    case 'n' => "\n"
    case 'r' => "\r"
    case 't' => "\t"
    case _ => ""
  }

  /** An escape whose character after the backslash is at `p`. */
  function ParseEscape(s: string, p: nat): (r: Parsed<string>)
    requires p <= |s|
    ensures r.Success? ==> p < r.pos <= |s|
  {
    if p >= |s| then Failure
    else if s[p] == 'u' then ParseUnicode(s, p)
    else if SimpleEscape(s[p]) == "" then Failure
    else Success(SimpleEscape(s[p]), p + 1)
  }

  /** The rest of a string literal from `p` on, when `sofar` has been read. */
  function ParseChars(s: string, p: nat, sofar: string): (r: Parsed<string>)
    requires p <= |s|
    ensures r.Success? ==> p < r.pos <= |s|
    decreases |s| - p
  {
    if p >= |s| then Failure
    else if s[p] == '"' then Success(sofar, p + 1)
    else if s[p] == '\\' then
      match ParseEscape(s, p + 1)
      case Failure => Failure
      case Success(text, q) => ParseChars(s, q, sofar + text)
    else ParseChars(s, p + 1, sofar + [s[p]])
  }

  function ParseString(s: string, p: nat): (r: Parsed<string>)
    requires p <= |s|
    ensures r.Success? ==> p < r.pos <= |s|
  {
    if Has(s, p, "\"") then ParseChars(s, p + 1, "") else Failure
  }

  // ---------- values ----------

  function ParseValue(s: string, p: nat): (r: Parsed<Value>)
    requires p <= |s|
    ensures r.Success? ==> p < r.pos <= |s|
    decreases |s| - p, 2
  {
    var q := SkipSpace(s, p);
    if q >= |s| then Failure
    else match s[q]
      case 'n' => ParseWord(s, q, "null", Null)
      case 't' => ParseBool(s, q)
      case 'f' => ParseBool(s, q)
      case '"' => ParseStringValue(s, q)
      case '[' => ParseArray(s, q)
      case '{' => ParseObject(s, q)
      case c => if IsDigit(c) || c == '-' then ParseNumber(s, q) else Failure
  }

  function ParseBool(s: string, p: nat): (r: Parsed<Value>)
    ensures r.Success? ==> p < r.pos <= |s|
  {
    if Has(s, p, "true") then Success(Bool(true), p + 4)
    else if Has(s, p, "false") then Success(Bool(false), p + 5)
    else Failure
  }

  function ParseStringValue(s: string, p: nat): (r: Parsed<Value>)
    requires p <= |s|
    ensures r.Success? ==> p < r.pos <= |s|
  {
    match ParseString(s, p)
    case Failure => Failure
    case Success(text, q) => Success(String(text), q)
  }

  function ParseArray(s: string, p: nat): (r: Parsed<Value>)
    requires p <= |s|
    ensures r.Success? ==> p < r.pos <= |s|
    decreases |s| - p, 1
  {
    if !Has(s, p, "[") then Failure
    else
      var q := SkipSpace(s, p + 1);
      if Peek(s, q) == ']' then Success(Array([]), q + 1) else ParseElements(s, q, [])
  }

  /** The elements of an array from `p` on, when `sofar` have been read. */
  function ParseElements(s: string, p: nat, sofar: seq<Value>): (r: Parsed<Value>)
    requires p <= |s|
    ensures r.Success? ==> p < r.pos <= |s|
    decreases |s| - p, 3
  {
    match ParseValue(s, p)
    case Failure => Failure
    case Success(v, end) =>
      var q := SkipSpace(s, end);
      if Peek(s, q) == ',' then ParseElements(s, SkipSpace(s, q + 1), sofar + [v])
      else if Peek(s, q) == ']' then Success(Array(sofar + [v]), q + 1)
      else Failure
  }

  /** One turn of the loop of `parseArray`. */
  lemma ElementsStep(s: string, p: nat, sofar: seq<Value>)
    requires p <= |s|
    ensures ParseElements(s, p, sofar) ==
      match ParseValue(s, p)
      case Failure => Failure
      case Success(v, end) =>
        var q := SkipSpace(s, end);
        if Peek(s, q) == ',' then ParseElements(s, SkipSpace(s, q + 1), sofar + [v])
        else if Peek(s, q) == ']' then Success(Array(sofar + [v]), q + 1)
        else Failure
  {
  }

  function ParseObject(s: string, p: nat): (r: Parsed<Value>)
    requires p <= |s|
    ensures r.Success? ==> p < r.pos <= |s|
    decreases |s| - p, 1
  {
    if !Has(s, p, "{") then Failure
    else
      var q := SkipSpace(s, p + 1);
      if Peek(s, q) == '}' then Success(Object(map[]), q + 1) else ParseFields(s, q, map[])
  }

  /** The fields of an object from `p` on, when `sofar` have been read; a key that returns is overwritten. */
  function ParseFields(s: string, p: nat, sofar: map<string, Value>): (r: Parsed<Value>)
    requires p <= |s|
    ensures r.Success? ==> p < r.pos <= |s|
    decreases |s| - p, 3
  {
    if Peek(s, p) != '"' then Failure
    else match ParseField(s, p)
      case Failure => Failure
      case Success((key, v), end) =>
        var q := SkipSpace(s, end);
        if Peek(s, q) == ',' then ParseFields(s, SkipSpace(s, q + 1), sofar[key := v])
        else if Peek(s, q) == '}' then Success(Object(sofar[key := v]), q + 1)
        else Failure
  }

  /** One turn of the loop of `parseObject`. */
  lemma FieldsStep(s: string, p: nat, sofar: map<string, Value>)
    requires p <= |s|
    ensures ParseFields(s, p, sofar) ==
      if Peek(s, p) != '"' then Failure
      else match ParseField(s, p)
        case Failure => Failure
        case Success((key, v), end) =>
          var q := SkipSpace(s, end);
          if Peek(s, q) == ',' then ParseFields(s, SkipSpace(s, q + 1), sofar[key := v])
          else if Peek(s, q) == '}' then Success(Object(sofar[key := v]), q + 1)
          else Failure
  {
  }

  function ParseField(s: string, p: nat): (r: Parsed<(string, Value)>)
    requires p <= |s|
    ensures r.Success? ==> p < r.pos <= |s|
    decreases |s| - p, 2
  {
    match ParseString(s, p)
    case Failure => Failure
    case Success(key, end) =>
      var q := SkipSpace(s, end);
      if !Has(s, q, ":") then Failure
      else match ParseValue(s, q + 1)
        case Failure => Failure
        case Success(v, last) => Success((key, v), last)
  }

  /** `Parser::parse`: the non-strict path fills a variable that goes out of scope again, so the parser is
      handed the empty string. Nothing checks that the input ends where the value does. */
  function Parse(str: string, isStrict: bool): Parsed<Value> {
    ParseValue(if isStrict then str else "", 0)
  }
}
