/** The recursive-descent parser of breUtils/Json/json_parse.hpp: one cursor that every method advances. */
module JsonParser {
  import opened Wrappers
  import opened Chars
  import opened Texts
  import opened JsonValue
  import opened JsonCell
  import S = JsonSyntax
  import Utf8

  /** What a method hands back; `None` is an exception on its way out. */
  class Parser {
    const input: string
    var position: nat

    constructor (str: string)
      ensures input == str && position == 0
    {
      input := str;
      position := 0;
    }

    predicate Valid()
      reads this
    {
      position <= |input|
    }

    /** A method's result and the cursor it leaves are those of the function that specifies it. */
    predicate Agrees<T(==)>(r: Option<T>, spec: S.Parsed<T>)
      reads this
    {
      match spec
      case Failure => r == None
      case Success(v, p) => r == Some(v) && position == p
    }

    method Expect(expected: string) returns (ok: bool)
      requires Valid()
      modifies this
      ensures ok == Has(input, old(position), expected)
      ensures position == if ok then old(position) + |expected| else old(position)
      ensures Valid()
    {
      ok := position + |expected| <= |input| && input[position..position + |expected|] == expected;
      if ok {
        position := position + |expected|;
      }
    }

    method SkipWhitespace()
      requires Valid()
      modifies this
      ensures position == S.SkipSpace(input, old(position))
    {
      while position < |input| && IsSpace(input[position])
        invariant Valid()
        invariant S.SkipSpace(input, position) == S.SkipSpace(input, old(position))
      {
        position := position + 1;
      }
    }

    method SkipDigits()
      requires Valid()
      modifies this
      ensures position == S.SkipDigits(input, old(position))
    {
      while position < |input| && IsDigit(input[position])
        invariant Valid()
        invariant S.SkipDigits(input, position) == S.SkipDigits(input, old(position))
      {
        position := position + 1;
      }
    }

    method ParseNull() returns (r: Option<Value>)
      requires Valid()
      modifies this
      ensures Agrees(r, S.ParseWord(input, old(position), "null", Null))
    {
      var ok := Expect("null");
      r := if ok then Some(Null) else None;
    }

    method ParseBool() returns (r: Option<Value>)
      requires Valid()
      modifies this
      ensures Agrees(r, S.ParseBool(input, old(position)))
    {
      if Has(input, position, "true") {
        position := position + 4;
        r := Some(Bool(true));
      } else if Has(input, position, "false") {
        position := position + 5;
        r := Some(Bool(false));
      } else {
        r := None;
      }
    }

    /** The part of `parseNumber` that reads a point and the digits after it; is there one? */
    method SkipFraction() returns (found: bool)
      requires Valid()
      modifies this
      ensures position == S.FractionEnd(input, old(position))
      ensures found == (position != old(position))
    {
      found := position < |input| && input[position] == '.';
      if found {
        position := position + 1;
        SkipDigits();
      }
    }

    /** The part of `parseNumber` that reads an exponent; is there one? */
    method SkipExponent() returns (found: bool)
      requires Valid()
      modifies this
      ensures position == S.ExponentEnd(input, old(position))
      ensures found == (position != old(position))
    {
      found := position < |input| && (input[position] == 'e' || input[position] == 'E');
      if found {
        position := position + 1;
        if position < |input| && (input[position] == '+' || input[position] == '-') {
          position := position + 1;
        }
        SkipDigits();
      }
    }

    method ParseNumber() returns (r: Option<Value>)
      requires position < |input| && (IsDigit(input[position]) || input[position] == '-')
      modifies this
      ensures Agrees(r, S.ParseNumber(input, old(position)))
    {
      hide S.SkipDigits, S.FractionEnd, S.ExponentEnd;
      var start := position;
      var negative := input[position] == '-';
      if negative {
        position := position + 1;
      }
      var first := position;
      SkipDigits();
      var whole := position;
      var hasPoint := SkipFraction();
      var fraction := position;
      var hasExponent := SkipExponent();
      var numberStr := input[start..position];
      if hasPoint || hasExponent {
        r := if whole > first || fraction > whole + 1 then Some(Double(numberStr)) else None;
      } else if whole == first {
        r := None;
      } else {
        var n: int := NatValue(input[first..whole]);
        if negative {
          n := -n;
        }
        r := Some(if INT_MIN <= n <= INT_MAX then Int(n) else Double(numberStr));
      }
    }

    /** `ParseUnicode`, followed by the step that the loop of `ParseString` makes after every escape. */
    method ParseUnicode() returns (r: Option<string>)
      requires position < |input|
      modifies this
      ensures Agrees(r, S.ParseUnicode(input, old(position)))
    {
      position := position + 1;
      if position + 4 >= |input| {
        return None;
      }
      var hexStr := input[position + 1..position + 5];
      position := position + 4;
      if !IsHexDigit(hexStr[0]) {
        return None;
      }
      var codePoint := S.HexPrefix(hexStr);
      if 0xD800 <= codePoint <= 0xDBFF {
        if position + 6 >= |input| || input[position] != '\\' || input[position + 1] != 'u' {
          return None;
        }
        position := position + 2;
        var lowHexStr := input[position..position + 4];
        position := position + 4;
        var lowCodePoint := S.HexPrefix(lowHexStr);
        if !IsHexDigit(lowHexStr[0]) || lowCodePoint < 0xDC00 || lowCodePoint > 0xDFFF {
          return None;
        }
        codePoint := Utf8.Combine(codePoint, lowCodePoint);
      }
      var bytes := Utf8.Emit(codePoint);
      r := Some(bytes);
    }

    method ParseString() returns (r: Option<string>)
      requires Valid()
      modifies this
      ensures Agrees(r, S.ParseString(input, old(position)))
      ensures r.Some? ==> Valid()
    {
      hide S.ParseUnicode;
      var ok := Expect("\"");
      if !ok {
        return None;
      }
      var result := "";
      while position < |input| && input[position] != '"'
        invariant Valid()
        invariant S.ParseChars(input, position, result) == S.ParseChars(input, old(position) + 1, "")
        decreases |input| - position
      {
        if input[position] == '\\' {
          position := position + 1;
          if position >= |input| {
            return None;
          }
          if input[position] == 'u' {
            var text := ParseUnicode();
            if text.None? {
              return None;
            }
            result := result + text.value;
          } else {
            var text := S.SimpleEscape(input[position]);
            if text == "" {
              return None;
            }
            result := result + text;
            position := position + 1;
          }
        } else {
          result := result + [input[position]];
          position := position + 1;
        }
      }
      ok := Expect("\"");
      r := if ok then Some(result) else None;
    }

    method ParseValue() returns (r: Option<Value>)
      requires Valid()
      modifies this
      ensures Agrees(r, S.ParseValue(input, old(position)))
      ensures r.Some? ==> old(position) < position && Valid()
      decreases |input| - position, 2
    {
      SkipWhitespace();
      if position >= |input| {
        return None;
      }
      match input[position] {
        case 'n' => r := ParseNull();
        case 't' => r := ParseBool();
        case 'f' => r := ParseBool();
        case '"' =>
          var text := ParseString();
          r := if text.Some? then Some(String(text.value)) else None;
        case '[' => r := ParseArray();
        case '{' => r := ParseObject();
        case c =>
          if IsDigit(c) || c == '-' {
            r := ParseNumber();
          } else {
            r := None;
          }
      }
    }

    method ParseArray() returns (r: Option<Value>)
      requires Valid()
      modifies this
      ensures Agrees(r, S.ParseArray(input, old(position)))
      ensures r.Some? ==> Valid()
      decreases |input| - position, 1
    {
      hide S.ParseValue, S.ParseElements, S.SkipSpace, Has;
      var ok := Expect("[");
      if !ok {
        return None;
      }
      var arrayValue := new ValueCell();
      arrayValue.SetArray();
      SkipWhitespace();
      if S.Peek(input, position) == ']' {
        position := position + 1;
        return Some(arrayValue.value);
      }
      while true
        invariant Valid() && old(position) < position
        invariant arrayValue.value.Array?
        invariant S.ParseElements(input, position, arrayValue.value.elements) == S.ParseArray(input, old(position))
        decreases |input| - position
      {
        S.ElementsStep(input, position, arrayValue.value.elements);
        var element := ParseValue();
        if element.None? {
          return None;
        }
        var appended := arrayValue.Append(element.value);
        SkipWhitespace();
        if S.Peek(input, position) == ',' {
          position := position + 1;
          SkipWhitespace();
        } else if S.Peek(input, position) == ']' {
          position := position + 1;
          return Some(arrayValue.value);
        } else {
          return None;
        }
      }
    }

    /** The part of the loop of `parseObject` that reads one key and its value. */
    method ParseField() returns (r: Option<(string, Value)>)
      requires Valid()
      modifies this
      ensures Agrees(r, S.ParseField(input, old(position)))
      ensures r.Some? ==> old(position) < position && Valid()
      decreases |input| - position, 3
    {
      hide S.ParseValue, S.ParseString, S.SkipSpace, Has;
      var key := ParseString();
      if key.None? {
        return None;
      }
      SkipWhitespace();
      var ok := Expect(":");
      if !ok {
        return None;
      }
      var value := ParseValue();
      r := if value.Some? then Some((key.value, value.value)) else None;
    }

    method ParseObject() returns (r: Option<Value>)
      requires Valid()
      modifies this
      ensures Agrees(r, S.ParseObject(input, old(position)))
      ensures r.Some? ==> Valid()
      decreases |input| - position, 1
    {
      hide S.ParseField, S.ParseFields, S.SkipSpace, Has;
      var ok := Expect("{");
      if !ok {
        return None;
      }
      var objectValue := new ValueCell();
      objectValue.SetObject();
      SkipWhitespace();
      if S.Peek(input, position) == '}' {
        position := position + 1;
        return Some(objectValue.value);
      }
      while true
        invariant Valid() && old(position) < position
        invariant objectValue.value.Object?
        invariant S.ParseFields(input, position, objectValue.value.fields) == S.ParseObject(input, old(position))
        decreases |input| - position
      {
        S.FieldsStep(input, position, objectValue.value.fields);
        if S.Peek(input, position) != '"' {
          return None;
        }
        var field := ParseField();
        if field.None? {
          return None;
        }
        ok := objectValue.Assign(field.value.0, field.value.1);
        SkipWhitespace();
        if S.Peek(input, position) == ',' {
          position := position + 1;
          SkipWhitespace();
        } else if S.Peek(input, position) == '}' {
          position := position + 1;
          return Some(objectValue.value);
        } else {
          return None;
        }
      }
    }
  }

  /** `Parser::parse`. */
  method Parse(str: string, isStrict: bool) returns (r: Option<Value>)
    ensures r == match S.Parse(str, isStrict) case Failure => None case Success(v, _) => Some(v)
  {
    var cleanStr := if isStrict then str else "";
    var parser := new Parser(cleanStr);
    r := parser.ParseValue();
  }
}
