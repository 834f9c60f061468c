/** The tagged value of breUtils/Json/json_value.hpp and its equality from json_tool.hpp. */
module JsonValue {

  const INT_MIN: int := -0x8000_0000
  const INT_MAX: int := 0x7FFF_FFFF

  type Int32 = n: int | INT_MIN <= n <= INT_MAX

  /** A double is kept as a text that denotes it: neither `std::stod` nor the printing of doubles is modelled. */
  datatype Value =
    | Null
    | Bool(b: bool)
    | Int(n: Int32)
    | Double(text: string)
    | String(s: string)
    | Array(elements: seq<Value>)
    | Object(fields: map<string, Value>)

  predicate NoDoubles(v: Value)
  {
    match v
    case Double(_) => false
    case Array(a) => forall i :: 0 <= i < |a| ==> NoDoubles(a[i])
    case Object(m) => forall k :: k in m ==> NoDoubles(m[k])
    case _ => true
  }

  /** `Value::operator==`: the tag first, arrays by size and position, objects by size and then key by key
      from the left operand only, as `std::unordered_map::operator==` does. */
  predicate Equals(v: Value, w: Value)
  {
    match v
    case Null => w.Null?
    case Bool(b) => w.Bool? && b == w.b
    case Int(n) => w.Int? && n == w.n
    case Double(t) => w.Double? && t == w.text
    case String(s) => w.String? && s == w.s
    case Array(a) =>
      w.Array? && |a| == |w.elements| && forall i :: 0 <= i < |a| ==> Equals(a[i], w.elements[i])
    case Object(m) =>
      w.Object? && |m| == |w.fields| && forall k :: k in m ==> k in w.fields && Equals(m[k], w.fields[k])
  }

  lemma SubsetOfSameSize<T>(a: set<T>, b: set<T>)
    requires a <= b && |a| == |b|
    ensures a == b
  {
    assert b == a + (b - a);
    assert |b| == |a| + |b - a|;
  }

  /** The one-sided comparison decides equality of values: comparing the sizes makes up for never looking
      a key of the right operand up in the left one. */
  lemma {:induction false} EqualsDecidesEquality(v: Value, w: Value)
    requires NoDoubles(v)
    ensures Equals(v, w) <==> v == w
  {
    match v {
      case Array(a) =>
        if w.Array? && |a| == |w.elements| {
          forall i | 0 <= i < |a| ensures Equals(a[i], w.elements[i]) <==> a[i] == w.elements[i] {
            EqualsDecidesEquality(a[i], w.elements[i]);
          }
        }
      case Object(m) =>
        if w.Object? {
          forall k | k in m && k in w.fields ensures Equals(m[k], w.fields[k]) <==> m[k] == w.fields[k] {
            EqualsDecidesEquality(m[k], w.fields[k]);
          }
          if Equals(v, w) {
            assert m.Keys <= w.fields.Keys;
            assert |m.Keys| == |w.fields.Keys|;
            SubsetOfSameSize(m.Keys, w.fields.Keys);
            assert m == w.fields;
          }
        }
      case _ =>
    }
  }
}

/** `Value` as the parser builds it up: an object whose tag and content the setters replace in place. */
module JsonCell {
  import opened JsonValue

  class ValueCell {
    var value: Value

    constructor ()
      ensures value == Null
    {
      value := Null;
    }

    method SetArray()
      modifies this
      ensures value == Array([])
    {
      value := Array([]);
    }

    method SetObject()
      modifies this
      ensures value == Object(map[])
    {
      value := Object(map[]);
    }

    /** `Append`; false is the type error of `checkType`. */
    method Append(v: Value) returns (ok: bool)
      modifies this
      ensures ok == old(value).Array?
      ensures value == if ok then Array(old(value).elements + [v]) else old(value)
    {
      ok := value.Array?;
      if ok {
        value := Array(value.elements + [v]);
      }
    }

    /** `cell[key] = v`; a null becomes an object first, and false is the type error of `checkType`. */
    method Assign(key: string, v: Value) returns (ok: bool)
      modifies this
      ensures ok == (old(value).Null? || old(value).Object?)
      ensures value ==
        if old(value).Null? then Object(map[key := v])
        else if old(value).Object? then Object(old(value).fields[key := v])
        else old(value)
    {
      if value.Null? {
        value := Object(map[key := Null]);
      }
      ok := value.Object?;
      if ok {
        value := Object(value.fields[key := v]);
      }
    }
  }
}
