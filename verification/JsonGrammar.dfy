/** Which texts the parser of breUtils/Json/json_parse.hpp takes for a value, and for which one, as a grammar of its
    own: JSON as RFC 8259 defines it, and what the parser takes beyond that. */
module JsonGrammar {
  import opened Wrappers
  import opened Texts
  import opened Chars
  import opened JsonValue
  import opened JsonSyntax
  import Utf8
  import R = JsonRoundTrip

  // ---------- the trees ----------

  /** One character of a string: itself, after a backslash, or as `u` and four characters. */
  datatype CharTree = Itself(c: char) | Simple(c: char) | Unicode(d0: char, d1: char, d2: char, d3: char)

  datatype Exponent = Exponent(letter: char, sign: string, digits: string)

  datatype Number = Number(minus: bool, whole: string, fraction: Option<string>, exponent: Option<Exponent>)

  datatype Tree =
    | NullTree
    | BoolTree(b: bool)
    | NumberTree(n: Number)
    | StringTree(chars: seq<CharTree>)
    | EmptyArray(blank: string)
    | ArrayTree(items: Items)
    | EmptyObject(blank: string)
    | ObjectTree(fields: Fields)

  /** The items of an array, each with the white space around it. */
  datatype Items =
    | LastItem(before: string, tree: Tree, after: string)
    | NextItem(before: string, tree: Tree, after: string, rest: Items)

  /** A field: the key, then the white space up to the colon, and the value with the white space around it. */
  datatype Fields =
    | LastField(before: string, key: seq<CharTree>, gap: string, space: string, tree: Tree, after: string)
    | NextField(before: string, key: seq<CharTree>, gap: string, space: string, tree: Tree, after: string, rest: Fields)

  // ---------- their texts ----------

  function ShowChar(c: CharTree): (s: string)
    ensures s != ""
  {
    match c
    case Itself(x) => [x]
    case Simple(x) => ['\\', x]
    case Unicode(d0, d1, d2, d3) => ['\\', 'u', d0, d1, d2, d3]
  }

  /** The characters and the mark at the end. */
  function ShowChars(chars: seq<CharTree>): (s: string)
    ensures s != ""
  {
    if chars == [] then "\"" else ShowChar(chars[0]) + ShowChars(chars[1..])
  }

  function ShowString(chars: seq<CharTree>): string {
    "\"" + ShowChars(chars)
  }

  function ShowFraction(fraction: Option<string>): string {
    match fraction
    case None => ""
    case Some(digits) => "." + digits
  }

  function ShowExponent(exponent: Option<Exponent>): string {
    match exponent
    case None => ""
    case Some(e) => [e.letter] + (e.sign + e.digits)
  }

  function ShowNumber(n: Number): string
  {
    (if n.minus then "-" else "") + (n.whole + (ShowFraction(n.fraction) + ShowExponent(n.exponent)))
  }

  function Show(t: Tree): string {
    match t
    case NullTree => "null"
    case BoolTree(b) => if b then "true" else "false"
    case NumberTree(n) => ShowNumber(n)
    case StringTree(chars) => ShowString(chars)
    case EmptyArray(blank) => "[" + (blank + "]")
    case ArrayTree(items) => "[" + ShowItems(items)
    case EmptyObject(blank) => "{" + (blank + "}")
    case ObjectTree(fields) => "{" + ShowFields(fields)
  }

  /** The items and the bracket at the end. */
  function ShowItems(items: Items): string {
    match items
    case LastItem(before, tree, after) => before + (Show(tree) + (after + "]"))
    case NextItem(before, tree, after, rest) => before + (Show(tree) + (after + ("," + ShowItems(rest))))
  }

  function ShowFields(fields: Fields): string {
    match fields
    case LastField(before, key, gap, space, tree, after) =>
      before + (ShowString(key) + (gap + (":" + (space + (Show(tree) + (after + "}"))))))
    case NextField(before, key, gap, space, tree, after, rest) =>
      before + (ShowString(key) + (gap + (":" + (space + (Show(tree) + (after + ("," + ShowFields(rest))))))))
  }

  // ---------- which trees count ----------

  /** The six bytes that may stand between tokens. */
  predicate IsBlank(s: string) {
    forall i :: 0 <= i < |s| ==> s[i] as int == 32 || 9 <= s[i] as int <= 13
  }

  predicate IsDecimal(s: string) {
    forall i :: 0 <= i < |s| ==> 48 <= s[i] as int <= 57
  }

  /** The code of the character that a backslash and `c` stand for, or -1. */
  function SimpleCode(c: char): (code: int)
    ensures -1 <= code < 128
  {
    if c == '"' then 34
    else if c == '\\' then 92
    else if c == '/' then 47
    else if c == 'b' then 8
    else if c == 'f' then 12
    else if c == 'n' then 10
    else if c == 'r' then 13
    else if c == 't' then 9
    else -1
  }

  /** The value of a hexadecimal digit, or -1. */
  function Nibble(c: char): int {
    var code := c as int;
    if 48 <= code <= 57 then code - 48
    else if 65 <= code <= 70 then code - 55
    else if 97 <= code <= 102 then code - 87
    else -1
  }

  /** The number that the hexadecimal digits among four characters denote, up to the first that is none. */
  function Code(a: char, b: char, c: char, d: char): int
    requires Nibble(a) >= 0
  {
    if Nibble(b) < 0 then Nibble(a)
    else if Nibble(c) < 0 then Nibble(a) * 16 + Nibble(b)
    else if Nibble(d) < 0 then Nibble(a) * 256 + Nibble(b) * 16 + Nibble(c)
    else Nibble(a) * 4096 + Nibble(b) * 256 + Nibble(c) * 16 + Nibble(d)
  }

  /** In front of the character `next`. A Unicode escape is read from its second digit on, `next` included, and must
      not be read as a high surrogate then. */
  predicate ProperChar(c: CharTree, next: char) {
    match c
    case Itself(x) => x != '"' && x != '\\'
    case Simple(x) => SimpleCode(x) >= 0
    case Unicode(_, d1, d2, d3) => Nibble(d1) >= 0 && !(0xD800 <= Code(d1, d2, d3, next) <= 0xDBFF)
  }

  predicate ProperChars(chars: seq<CharTree>) {
    chars != [] ==> ProperChar(chars[0], ShowChars(chars[1..])[0]) && ProperChars(chars[1..])
  }

  predicate ProperExponent(e: Exponent) {
    && (e.letter == 'e' || e.letter == 'E')
    && (e.sign == "" || e.sign == "+" || e.sign == "-")
    && IsDecimal(e.digits)
  }

  /** A digit must come before the point or after it, and one or a minus must come first. Beyond RFC 8259, there may be
      leading zeros, and digits may be missing on one side of the point and in the exponent. */
  predicate ProperNumber(n: Number)
  {
    && IsDecimal(n.whole)
    && (n.fraction.Some? ==> IsDecimal(n.fraction.value))
    && (n.exponent.Some? ==> ProperExponent(n.exponent.value))
    && (n.whole != "" || (n.minus && n.fraction.Some? && n.fraction.value != ""))
  }

  predicate Proper(t: Tree) {
    match t
    case NumberTree(n) => ProperNumber(n)
    case StringTree(chars) => ProperChars(chars)
    case EmptyArray(blank) => IsBlank(blank)
    case ArrayTree(items) => ProperItems(items)
    case EmptyObject(blank) => IsBlank(blank)
    case ObjectTree(fields) => ProperFields(fields)
    case _ => true
  }

  predicate ProperItems(items: Items) {
    && IsBlank(items.before) && Proper(items.tree) && IsBlank(items.after)
    && (items.NextItem? ==> ProperItems(items.rest))
  }

  predicate ProperFields(fields: Fields) {
    && IsBlank(fields.before) && ProperChars(fields.key) && IsBlank(fields.gap) && IsBlank(fields.space)
    && Proper(fields.tree) && IsBlank(fields.after)
    && (fields.NextField? ==> ProperFields(fields.rest))
  }

  predicate NoDigit(s: string, p: nat) {
    p < |s| ==> !(48 <= s[p] as int <= 57)
  }

  predicate FractionStops(fraction: Option<string>, s: string, p: nat) {
    NoDigit(s, p) && (fraction.None? && p < |s| ==> s[p] != '.')
  }

  predicate ExponentStops(exponent: Option<Exponent>, s: string, p: nat) {
    match exponent
    case None => p < |s| ==> s[p] != 'e' && s[p] != 'E'
    case Some(e) => NoDigit(s, p) && (e.sign == "" && e.digits == "" && p < |s| ==> s[p] != '+' && s[p] != '-')
  }

  /** A number is read as far as it goes, so the character behind it must not go on with it. */
  predicate NumberStops(n: Number, s: string, p: nat) {
    ExponentStops(n.exponent, s, p) && (n.exponent.None? ==> FractionStops(n.fraction, s, p))
  }

  predicate Stops(t: Tree, s: string, p: nat) {
    t.NumberTree? ==> NumberStops(t.n, s, p)
  }

  // ---------- what they mean ----------

  function CharMeaning(c: CharTree, next: char): string
    requires ProperChar(c, next)
  {
    match c
    case Itself(x) => [x]
    case Simple(x) => [SimpleCode(x) as char]
    case Unicode(_, d1, d2, d3) => Utf8.Encode(Code(d1, d2, d3, next))
  }

  function StringMeaning(chars: seq<CharTree>): string
    requires ProperChars(chars)
  {
    if chars == [] then "" else CharMeaning(chars[0], ShowChars(chars[1..])[0]) + StringMeaning(chars[1..])
  }

  function Decimal(s: string): nat
    requires IsDecimal(s)
  {
    if s == "" then 0 else Decimal(s[..|s| - 1]) * 10 + (s[|s| - 1] as int - 48)
  }

  /** A number without point and exponent that fits into 32 bits is an integer; any other is a double. */
  function NumberMeaning(n: Number): Value
    requires ProperNumber(n)
  {
    var size: int := Decimal(n.whole);
    var signed := if n.minus then -size else size;
    if n.fraction.None? && n.exponent.None? && -2147483648 <= signed <= 2147483647 then Int(signed)
    else Double(ShowNumber(n))
  }

  function Meaning(t: Tree): Value
    requires Proper(t)
  {
    match t
    case NullTree => Null
    case BoolTree(b) => Bool(b)
    case NumberTree(n) => NumberMeaning(n)
    case StringTree(chars) => String(StringMeaning(chars))
    case EmptyArray(_) => Array([])
    case ArrayTree(items) => Array(ItemsMeaning(items))
    case EmptyObject(_) => Object(map[])
    case ObjectTree(fields) => Object(FieldsMeaning(fields, map[]))
  }

  function ItemsMeaning(items: Items): seq<Value>
    requires ProperItems(items)
  {
    [Meaning(items.tree)] + (if items.LastItem? then [] else ItemsMeaning(items.rest))
  }

  /** The fields added to those of `sofar`; of two with the same key the later one counts. */
  function FieldsMeaning(fields: Fields, sofar: map<string, Value>): map<string, Value>
    requires ProperFields(fields)
  {
    var more := sofar[StringMeaning(fields.key) := Meaning(fields.tree)];
    if fields.LastField? then more else FieldsMeaning(fields.rest, more)
  }
}
