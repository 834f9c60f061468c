/** The printer of breUtils/Json/json_generator.hpp. */
module JsonGenerator {
  import opened Chars
  import opened Texts
  import opened JsonValue
  import T = JsonText

  class Generator {
    const indentWidth: int

    /** `std::to_string(double)`, which is not modelled. */
    const doubleText: string -> string

    constructor (indentWidth: int, doubleText: string -> string)
      ensures this.indentWidth == indentWidth
    {
      this.indentWidth := indentWidth;
      this.doubleText := doubleText;
    }

    method Indent(level: nat) returns (r: string)
      requires indentWidth > 0
      ensures r == T.Pad(indentWidth, level)
    {
      r := Blanks(level * indentWidth);
    }

    method EscapeString(s: string) returns (escaped: string)
      ensures escaped == T.Escape(s)
    {
      hide T.EscapeChar;
      escaped := "";
      assert s[0..] == s;
      for i := 0 to |s|
        invariant escaped + T.Escape(s[i..]) == T.Escape(s)
      {
        T.EscapeNext(s, i);
        hide T.Escape;
        var c := T.EscapeChar(s[i]);
        assert escaped + (c + T.Escape(s[i + 1..])) == (escaped + c) + T.Escape(s[i + 1..]);
        escaped := escaped + c;
      }
    }

    method GenerateValue(val: Value, level: nat) returns (r: string)
      ensures T.Renders(val, indentWidth, level, r)
      decreases val, 2
    {
      match val {
        case Null => r := "null";
        case Bool(b) => r := if b then "true" else "false";
        case Int(n) => r := IntText(n);
        case Double(text) => r := doubleText(text);
        case String(s) =>
          var escaped := EscapeString(s);
          r := "\"" + escaped + "\"";
        case Array(_) => r := GenerateArray(val, level + 1);
        case Object(_) => r := GenerateObject(val, level + 1);
      }
    }

    method GenerateArray(val: Value, level: nat) returns (result: string)
      requires val.Array? && level > 0
      ensures T.Renders(val, indentWidth, level - 1, result)
      decreases val, 1
    {
      hide T.Renders, T.RendersElements;
      var items := val.elements;
      if |items| == 0 {
        T.EmptyArray(val, indentWidth, level - 1);
        return "[]";
      }
      result := "[";
      if indentWidth > 0 {
        result := result + "\n";
      }
      assert result == "[" + T.Gap(indentWidth);
      T.OpenArray(val, indentWidth, level);
      for i := 0 to |items|
        invariant T.RendersElements(val, i, indentWidth, level, result)
      {
        ghost var before := result;
        if indentWidth > 0 {
          var pad := Indent(level);
          result := result + pad;
        }
        var item := GenerateValue(items[i], level);
        result := result + item;
        if i < |items| - 1 {
          result := result + ",";
        }
        if indentWidth > 0 {
          result := result + "\n";
        }
        assert result == before + T.Pad(indentWidth, level) + item + T.Separator(i, |items|) + T.Gap(indentWidth);
        T.AppendElement(val, i, indentWidth, level, before, item);
      }
      ghost var body := result;
      if indentWidth > 0 {
        var pad := Indent(level - 1);
        result := result + pad;
      }
      result := result + "]";
      assert result == body + T.Pad(indentWidth, level - 1) + "]";
      T.CloseArray(val, indentWidth, level - 1, body);
    }

    /** One turn of the loop over the fields. */
    method GenerateField(val: Value, ghost keys: seq<string>, key: string, count: nat, level: nat, before: string)
      returns (result: string)
      requires val.Object? && key in val.fields && count == |keys| + 1
      requires (forall k :: k in keys ==> k in val.fields) && T.RendersFields(val, keys, indentWidth, level, before)
      ensures T.RendersFields(val, keys + [key], indentWidth, level, result)
      decreases val, 0
    {
      hide T.Renders, T.RendersFields, T.Escape;
      result := before;
      if indentWidth > 0 {
        var pad := Indent(level);
        result := result + pad;
      }
      var escaped := EscapeString(key);
      var item := GenerateValue(val.fields[key], level);
      result := result + ("\"" + escaped + "\"" + ": " + item);
      assert result == before + T.Pad(indentWidth, level) + T.FieldText(key, item);
      if count < |val.fields| {
        result := result + ",";
      }
      if indentWidth > 0 {
        result := result + "\n";
      }
      assert result == before + T.Pad(indentWidth, level) + T.FieldText(key, item)
                       + T.Separator(|keys|, |val.fields|) + T.Gap(indentWidth);
      T.AppendField(val, keys, key, indentWidth, level, before, item);
    }

    /** The order in which the keys are taken is left open, as `std::unordered_map` leaves it. */
    method GenerateObject(val: Value, level: nat) returns (result: string)
      requires val.Object? && level > 0
      ensures T.Renders(val, indentWidth, level - 1, result)
      decreases val, 1
    {
      hide T.Renders, T.RendersFields, T.Escape, T.Taken, T.Enumerates;
      var members := val.fields;
      if |members| == 0 {
        T.EmptyObject(val, indentWidth, level - 1);
        return "{}";
      }
      result := "{";
      if indentWidth > 0 {
        result := result + "\n";
      }
      ghost var keys: seq<string> := [];
      var count := 0;
      var rest := members.Keys;
      assert result == "{" + T.Gap(indentWidth);
      T.OpenObject(val, indentWidth, level);
      T.NoneTaken(members);
      while rest != {}
        invariant count == |keys| && (forall k :: k in keys ==> k in members) && T.Taken(keys, rest, members)
        invariant T.RendersFields(val, keys, indentWidth, level, result)
        decreases rest
      {
        var key :| key in rest;
        T.TakeKey(keys, rest, members, key);
        count := count + 1;
        result := GenerateField(val, keys, key, count, level, result);
        rest := rest - {key};
        keys := keys + [key];
      }
      T.AllTaken(keys, members);
      ghost var body := result;
      if indentWidth > 0 {
        var pad := Indent(level - 1);
        result := result + pad;
      }
      result := result + "}";
      assert result == body + T.Pad(indentWidth, level - 1) + "}";
      T.CloseObject(val, keys, indentWidth, level - 1, body);
    }
  }

  /** `Generator::generate`. */
  method Generate(val: Value, pretty: bool, indentWidth: int, doubleText: string -> string) returns (r: string)
    ensures T.Renders(val, T.Width(pretty, indentWidth), 0, r)
    ensures T.Renders(val, if pretty then indentWidth else 0, 0, r)
  {
    var generator := new Generator(if pretty then indentWidth else 0, doubleText);
    r := generator.GenerateValue(val, 0);
  }
}
