/** Which texts breUtils/Json/json_generator.hpp may print for a value, as a relation: an object is printed in
    whatever order its `std::unordered_map` enumerates it, and that order may differ from object to object. */
module JsonText {
  import opened Chars
  import opened Texts
  import opened JsonValue

  function EscapeChar(c: char): (text: string)
    ensures text != ""
  {
    if c == '"' then "\\\""
    else if c == '\\' then "\\\\"
    else if c == 8 as char then "\\b"
    else if c == 12 as char then "\\f"
    else if c == '\n' then "\\n"
    else if c == '\r' then "\\r"
    else if c == '\t' then "\\t"
    else [c]
  }

  function Escape(s: string): string {
    if s == "" then "" else EscapeChar(s[0]) + Escape(s[1..])
  }

  lemma EscapeNext(s: string, i: nat)
    requires i < |s|
    ensures Escape(s[i..]) == EscapeChar(s[i]) + Escape(s[i + 1..])
  {
    assert s[i..][1..] == s[i + 1..];
    hide EscapeChar;
  }

  function Quoted(s: string): string {
    "\"" + Escape(s) + "\""
  }

  function FieldText(key: string, item: string): string {
    Quoted(key) + ": " + item
  }

  /** The line break after a bracket or an item, when the output is indented. */
  function Gap(width: int): string {
    if width > 0 then "\n" else ""
  }

  function Pad(width: int, level: nat): string {
    if width > 0 then Blanks(level * width) else ""
  }

  /** What ends the item at index `i` of `n`. */
  function Separator(i: nat, n: nat): string {
    if i + 1 < n then "," else ""
  }

  /** `keys` names every key of `m` once, in some order. */
  ghost predicate Enumerates(keys: seq<string>, m: map<string, Value>) {
    && (forall k :: k in keys <==> k in m)
    && (forall i, j :: 0 <= i < j < |keys| ==> keys[i] != keys[j])
  }

  /** `keys` have been taken from `m`, each once, and `rest` has not. */
  ghost predicate Taken(keys: seq<string>, rest: set<string>, m: map<string, Value>) {
    && (forall k :: k in m <==> k in keys || k in rest)
    && (forall k :: k in keys ==> k !in rest)
    && (forall i, j :: 0 <= i < j < |keys| ==> keys[i] != keys[j])
    && |keys| + |rest| == |m|
  }

  lemma TakeKey(keys: seq<string>, rest: set<string>, m: map<string, Value>, key: string)
    requires Taken(keys, rest, m) && key in rest
    ensures key in m && Taken(keys + [key], rest - {key}, m)
  {
  }

  lemma NoneTaken(m: map<string, Value>)
    ensures Taken([], m.Keys, m)
  {
  }

  lemma AllTaken(keys: seq<string>, m: map<string, Value>)
    requires Taken(keys, {}, m)
    ensures Enumerates(keys, m)
  {
  }

  ghost predicate Renders(v: Value, width: int, level: nat, out: string)
    decreases v, 1, 0
  {
    match v
    case Null => out == "null"
    case Bool(b) => out == if b then "true" else "false"
    case Int(n) => out == IntText(n)
    case Double(_) => true
    case String(s) => out == Quoted(s)
    case Array(a) =>
      if a == [] then out == "[]" else
        exists body ::
          && RendersElements(v, |a|, width, level + 1, body)
          && out == body + Pad(width, level) + "]"
    case Object(m) =>
      if m == map[] then out == "{}" else
        exists keys, body ::
          && Enumerates(keys, m)
          && RendersFields(v, keys, width, level + 1, body)
          && out == body + Pad(width, level) + "}"
  }

  /** `out` is what `generateArray` has built after `i` turns of its loop. */
  ghost predicate RendersElements(v: Value, i: nat, width: int, level: nat, out: string)
    requires v.Array? && i <= |v.elements|
    decreases v, 0, i
  {
    if i == 0 then out == "[" + Gap(width) else
      exists before, item ::
        && RendersElements(v, i - 1, width, level, before)
        && Renders(v.elements[i - 1], width, level, item)
        && out == before + Pad(width, level) + item + Separator(i - 1, |v.elements|) + Gap(width)
  }

  /** `out` is what `generateObject` has built after taking `keys` one by one. */
  ghost predicate RendersFields(v: Value, keys: seq<string>, width: int, level: nat, out: string)
    requires v.Object? && forall k :: k in keys ==> k in v.fields
    decreases v, 0, |keys|
  {
    if keys == [] then out == "{" + Gap(width) else
      var last := |keys| - 1;
      exists before, item ::
        && RendersFields(v, keys[..last], width, level, before)
        && Renders(v.fields[keys[last]], width, level, item)
        && out == before + Pad(width, level) + FieldText(keys[last], item) + Separator(last, |v.fields|) + Gap(width)
  }

  // The loops of the generator, turn by turn.

  lemma EmptyArray(v: Value, width: int, level: nat)
    requires v.Array? && |v.elements| == 0
    ensures Renders(v, width, level, "[]")
  {
  }

  lemma EmptyObject(v: Value, width: int, level: nat)
    requires v.Object? && |v.fields| == 0
    ensures Renders(v, width, level, "{}")
  {
  }

  lemma OpenArray(v: Value, width: int, level: nat)
    requires v.Array?
    ensures RendersElements(v, 0, width, level, "[" + Gap(width))
  {
  }

  lemma AppendElement(v: Value, i: nat, width: int, level: nat, before: string, item: string)
    requires v.Array? && i < |v.elements|
    requires RendersElements(v, i, width, level, before) && Renders(v.elements[i], width, level, item)
    ensures RendersElements(v, i + 1, width, level,
              before + Pad(width, level) + item + Separator(i, |v.elements|) + Gap(width))
  {
  }

  lemma CloseArray(v: Value, width: int, level: nat, body: string)
    requires v.Array? && v.elements != []
    requires RendersElements(v, |v.elements|, width, level + 1, body)
    ensures Renders(v, width, level, body + Pad(width, level) + "]")
  {
  }

  lemma OpenObject(v: Value, width: int, level: nat)
    requires v.Object?
    ensures RendersFields(v, [], width, level, "{" + Gap(width))
  {
  }

  lemma AppendField(v: Value, keys: seq<string>, key: string, width: int, level: nat, before: string, item: string)
    requires v.Object? && key in v.fields && forall k :: k in keys ==> k in v.fields
    requires RendersFields(v, keys, width, level, before) && Renders(v.fields[key], width, level, item)
    ensures RendersFields(v, keys + [key], width, level,
              before + Pad(width, level) + FieldText(key, item) + Separator(|keys|, |v.fields|) + Gap(width))
  {
    hide Renders, Pad, FieldText, Separator, Gap;
    var all := keys + [key];
    assert all[..|all| - 1] == keys && all[|all| - 1] == key;
  }

  lemma CloseObject(v: Value, keys: seq<string>, width: int, level: nat, body: string)
    requires v.Object? && v.fields != map[] && Enumerates(keys, v.fields)
    requires RendersFields(v, keys, width, level + 1, body)
    ensures Renders(v, width, level, body + Pad(width, level) + "}")
  {
  }

  /** The width `Generator::generate` works with. */
  function Width(pretty: bool, indentWidth: int): int {
    if pretty then indentWidth else 0
  }
}
