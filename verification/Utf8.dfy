/** The byte emission at the end of `ParseUnicode` (breUtils/Json/json_parse.hpp), from a code point on. */
module Utf8 {
  import B = Bits

  predicate IsHighSurrogate(u: int) { 0xD800 <= u <= 0xDBFF }

  predicate IsLowSurrogate(u: int) { 0xDC00 <= u <= 0xDFFF }

  /** Unicode scalar values: every code point that is not a surrogate. */
  predicate IsScalar(u: int) { 0 <= u <= 0xD7FF || 0xE000 <= u <= 0x10FFFF }

  /** `0x10000 + ((high - 0xD800) << 10) + (low - 0xDC00)` */
  function Combine(high: int, low: int): int
    requires IsHighSurrogate(high) && IsLowSurrogate(low)
  {
    0x10000 + (high - 0xD800) * 0x400 + (low - 0xDC00)
  }

  function Byte(n: int): char
    requires 0 <= n < 256
  {
    n as char
  }

  /** `0x80 | (x & 0x3F)` for the bits of `u` from position `log2(unit)` on. */
  function Continuation(u: nat, unit: nat): char
    requires unit != 0
  {
    Byte(0x80 + u / unit % 0x40)
  }

  /** The bytes appended for a code point, or nothing at all past U+10FFFF, where the original throws. */
  function Encode(u: nat): (bytes: string)
    ensures |bytes| ==
      if u <= 0x7F then 1 else if u <= 0x7FF then 2 else if u <= 0xFFFF then 3 else if u <= 0x10FFFF then 4 else 0
  {
    if u <= 0x7F then [Byte(u)]
    else if u <= 0x7FF then [Byte(0xC0 + u / 0x40 % 0x20), Continuation(u, 1)]
    else if u <= 0xFFFF then [Byte(0xE0 + u / 0x1000 % 0x10), Continuation(u, 0x40), Continuation(u, 1)]
    else if u <= 0x10FFFF then
      [Byte(0xF0 + u / 0x40000 % 8), Continuation(u, 0x1000), Continuation(u, 0x40), Continuation(u, 1)]
    else []
  }

  /** The lowest `width` bits after a shift, in words of division. */
  lemma MaskedShift(u: nat, shift: nat, width: nat)
    ensures B.And(B.Shr(u, shift), B.Pow2(width) - 1) == u / B.Pow2(shift) % B.Pow2(width)
  {
    var p, m := B.Pow2(shift), B.Pow2(width);
    hide B.And, B.Shr, B.Pow2;
    var q := u / p;
    assert u == q * p + u % p;
    B.ShrDrops(q, u % p, shift);
    assert q == q / m * m + q % m;
    B.AndKeeps(q / m, q % m, width);
  }

  lemma Powers()
    ensures B.Pow2(0) == 1 && B.Pow2(3) == 8 && B.Pow2(4) == 0x10 && B.Pow2(5) == 0x20 && B.Pow2(6) == 0x40
    ensures B.Pow2(12) == 0x1000 && B.Pow2(18) == 0x40000
  {
    assert B.Pow2(6) == 0x40;
    assert B.Pow2(9) == 0x200;
    assert B.Pow2(12) == 0x1000;
    assert B.Pow2(15) == 0x8000;
  }

  /** `0x80 | ((u >> shift) & 0x3F)` */
  method Tail(u: nat, shift: nat) returns (c: char)
    requires shift == 0 || shift == 6 || shift == 12
    ensures c == Continuation(u, B.Pow2(shift))
  {
    Powers();
    MaskedShift(u, shift, 6);
    hide B.And, B.Or, B.Shr, B.Pow2;
    var low := B.And(B.Shr(u, shift), 0x3F);
    B.OrAdds(2, low, 6);
    c := Byte(B.Or(0x80, low));
  }

  /** The first byte: `marker | ((u >> shift) & mask)`, the marker standing above the bits of the mask. */
  method Lead(u: nat, shift: nat, marker: nat, mask: nat, ghost q: nat, ghost width: nat) returns (c: char)
    requires mask == B.Pow2(width) - 1 && marker == q * B.Pow2(width) && marker + mask < 0x100
    ensures c as int == marker + u / B.Pow2(shift) % B.Pow2(width)
  {
    MaskedShift(u, shift, width);
    hide B.And, B.Or, B.Shr, B.Pow2;
    var high := B.And(B.Shr(u, shift), mask);
    B.OrAdds(q, high, width);
    c := Byte(B.Or(marker, high));
  }

  /** The emission at the end of `ParseUnicode`, in its own shifts and masks. */
  method Emit(codePoint: nat) returns (result: string)
    ensures result == Encode(codePoint)
  {
    Powers();
    hide B.Pow2, Continuation;
    if codePoint <= 0x7F {
      result := [Byte(codePoint)];
    } else if codePoint <= 0x7FF {
      var b0 := Lead(codePoint, 6, 0xC0, 0x1F, 6, 5);
      var b1 := Tail(codePoint, 0);
      result := [b0, b1];
    } else if codePoint <= 0xFFFF {
      var b0 := Lead(codePoint, 12, 0xE0, 0xF, 14, 4);
      var b1 := Tail(codePoint, 6);
      var b2 := Tail(codePoint, 0);
      result := [b0, b1, b2];
    } else if codePoint <= 0x10FFFF {
      var b0 := Lead(codePoint, 18, 0xF0, 7, 30, 3);
      var b1 := Tail(codePoint, 12);
      var b2 := Tail(codePoint, 6);
      var b3 := Tail(codePoint, 0);
      result := [b0, b1, b2, b3];
    } else {
      result := "";
    }
  }

  // ---------- UTF-8 as section 3 of RFC 3629 defines it ----------

  datatype Decoded = Invalid | Scalar(u: nat, length: nat)

  predicate IsContinuation(s: string, i: nat) {
    i < |s| && 0x80 <= s[i] as int < 0xC0
  }

  function Bits(s: string, i: nat): (n: nat)
    requires IsContinuation(s, i)
    ensures n < 0x40
  {
    s[i] as int - 0x80
  }

  /** A sequence counts only if it denotes a scalar value that no shorter sequence denotes. */
  function Checked(u: nat, smallest: nat, length: nat): Decoded {
    if smallest <= u && IsScalar(u) then Scalar(u, length) else Invalid
  }

  /** The scalar value at the start of `s`. */
  function DecodeFirst(s: string): Decoded {
    if s == "" then Invalid
    else
      var b := s[0] as int;
      if b < 0x80 then Scalar(b, 1)
      else if 0xC0 <= b < 0xE0 && IsContinuation(s, 1) then
        Checked((b - 0xC0) * 0x40 + Bits(s, 1), 0x80, 2)
      else if 0xE0 <= b < 0xF0 && IsContinuation(s, 1) && IsContinuation(s, 2) then
        Checked((b - 0xE0) * 0x1000 + Bits(s, 1) * 0x40 + Bits(s, 2), 0x800, 3)
      else if 0xF0 <= b < 0xF8 && IsContinuation(s, 1) && IsContinuation(s, 2) && IsContinuation(s, 3) then
        Checked((b - 0xF0) * 0x40000 + Bits(s, 1) * 0x1000 + Bits(s, 2) * 0x40 + Bits(s, 3), 0x10000, 4)
      else Invalid
  }

  /** The digits of a number in base 64, most significant first. */
  lemma Unpack(u: nat)
    ensures u == u / 0x40 * 0x40 + u % 0x40
    ensures u / 0x40 == u / 0x1000 * 0x40 + u / 0x40 % 0x40
    ensures u / 0x1000 == u / 0x40000 * 0x40 + u / 0x1000 % 0x40
  {
  }

  lemma Pack(a: nat, b: nat, c: nat, d: nat)
    requires b < 0x40 && c < 0x40 && d < 0x40
    ensures
      var u := a * 0x40000 + b * 0x1000 + c * 0x40 + d;
      u / 0x40000 == a && u / 0x1000 == a * 0x40 + b && u / 0x40 == a * 0x1000 + b * 0x40 + c
  {
  }

  lemma EncodeTwo(a: nat, b: nat)
    requires a < 0x20 && b < 0x40 && 0x80 <= a * 0x40 + b
    ensures Encode(a * 0x40 + b) == [Byte(0xC0 + a), Byte(0x80 + b)]
  {
    Pack(0, 0, a, b);
  }

  lemma EncodeThree(a: nat, b: nat, c: nat)
    requires a < 0x10 && b < 0x40 && c < 0x40 && 0x800 <= a * 0x1000 + b * 0x40 + c
    ensures Encode(a * 0x1000 + b * 0x40 + c) == [Byte(0xE0 + a), Byte(0x80 + b), Byte(0x80 + c)]
  {
    Pack(0, a, b, c);
  }

  lemma EncodeFour(a: nat, b: nat, c: nat, d: nat)
    requires a < 8 && b < 0x40 && c < 0x40 && d < 0x40
    requires 0x10000 <= a * 0x40000 + b * 0x1000 + c * 0x40 + d <= 0x10FFFF
    ensures Encode(a * 0x40000 + b * 0x1000 + c * 0x40 + d)
         == [Byte(0xF0 + a), Byte(0x80 + b), Byte(0x80 + c), Byte(0x80 + d)]
  {
    Pack(a, b, c, d);
  }

  /** The bytes of a code point past U+007F, one by one. */
  lemma EncodeBytes(u: nat)
    requires 0x7F < u <= 0x10FFFF
    ensures 0x7F < u <= 0x7FF ==> Encode(u) == [Byte(0xC0 + u / 0x40), Byte(0x80 + u % 0x40)]
    ensures 0x7FF < u <= 0xFFFF ==>
      Encode(u) == [Byte(0xE0 + u / 0x1000), Byte(0x80 + u / 0x40 % 0x40), Byte(0x80 + u % 0x40)]
    ensures 0xFFFF < u ==>
      Encode(u) == [Byte(0xF0 + u / 0x40000), Byte(0x80 + u / 0x1000 % 0x40),
                    Byte(0x80 + u / 0x40 % 0x40), Byte(0x80 + u % 0x40)]
  {
  }

  /** A decoder reads the emitted bytes back, whatever follows them. */
  lemma EncodeIsDecoded(u: nat, rest: string)
    requires IsScalar(u)
    ensures DecodeFirst(Encode(u) + rest) == Scalar(u, |Encode(u)|)
  {
    var s := Encode(u) + rest;
    assert forall i :: 0 <= i < |Encode(u)| ==> s[i] == Encode(u)[i];
    if 0x7F < u {
      hide Encode;
      EncodeBytes(u);
      Unpack(u);
    }
  }

  /** And every valid sequence is the one the emission would have written: it is the shortest form. */
  lemma DecodedIsEncoded(s: string)
    requires DecodeFirst(s).Scalar?
    ensures
      var d := DecodeFirst(s);
      IsScalar(d.u) && d.length <= |s| && s[..d.length] == Encode(d.u)
  {
    var b, d := s[0] as int, DecodeFirst(s);
    if b >= 0x80 {
      hide Encode;
      if b < 0xE0 {
        assert d.u == (b - 0xC0) * 0x40 + Bits(s, 1) && d.length == 2;
        hide DecodeFirst;
        EncodeTwo(b - 0xC0, Bits(s, 1));
      } else if b < 0xF0 {
        assert d.u == (b - 0xE0) * 0x1000 + Bits(s, 1) * 0x40 + Bits(s, 2) && d.length == 3;
        hide DecodeFirst;
        EncodeThree(b - 0xE0, Bits(s, 1), Bits(s, 2));
      } else {
        assert d.u == (b - 0xF0) * 0x40000 + Bits(s, 1) * 0x1000 + Bits(s, 2) * 0x40 + Bits(s, 3) && d.length == 4;
        hide DecodeFirst;
        EncodeFour(b - 0xF0, Bits(s, 1), Bits(s, 2), Bits(s, 3));
      }
    }
  }

  /** A lone low surrogate, which `ParseUnicode` lets through, is emitted as bytes that are not UTF-8. */
  lemma LoneSurrogateIsInvalid(u: nat, rest: string)
    requires IsLowSurrogate(u)
    ensures DecodeFirst(Encode(u) + rest) == Invalid
  {
    var s := Encode(u) + rest;
    assert s[0] == Encode(u)[0] && s[1] == Encode(u)[1] && s[2] == Encode(u)[2];
    assert u == u / 0x1000 * 0x1000 + u / 0x40 % 0x40 * 0x40 + u % 0x40;
  }

  function EncodeAll(us: seq<nat>): string {
    if us == [] then "" else Encode(us[0]) + EncodeAll(us[1..])
  }

  /** A text of emitted code points can be read in one way only. */
  lemma {:induction false} EncodeAllIsInjective(us: seq<nat>, vs: seq<nat>)
    requires forall i :: 0 <= i < |us| ==> IsScalar(us[i])
    requires forall i :: 0 <= i < |vs| ==> IsScalar(vs[i])
    requires EncodeAll(us) == EncodeAll(vs)
    ensures us == vs
  {
    hide Encode, DecodeFirst;
    if us != [] && vs != [] {
      EncodeIsDecoded(us[0], EncodeAll(us[1..]));
      EncodeIsDecoded(vs[0], EncodeAll(vs[1..]));
      var n := |Encode(us[0])|;
      assert EncodeAll(us)[n..] == EncodeAll(us[1..]) && EncodeAll(vs)[n..] == EncodeAll(vs[1..]);
      EncodeAllIsInjective(us[1..], vs[1..]);
      assert us == [us[0]] + us[1..] && vs == [vs[0]] + vs[1..];
    }
  }

  /** The bytes tell code points apart even where they are surrogates. */
  lemma EncodeIsInjective(u: nat, v: nat)
    requires u <= 0x10FFFF && v <= 0x10FFFF && Encode(u) == Encode(v)
    ensures u == v
  {
    if 0x7F < u && 0x7F < v {
      hide Encode;
      EncodeBytes(u);
      EncodeBytes(v);
      Unpack(u);
      Unpack(v);
    } else {
      assert Encode(u)[0] == Encode(v)[0];
    }
  }

  // ---------- surrogate pairs, section 2.2 of RFC 2781 ----------

  function High(u: int): int
    requires 0x10000 <= u <= 0x10FFFF
  {
    0xD800 + (u - 0x10000) / 0x400
  }

  function Low(u: int): int
    requires 0x10000 <= u <= 0x10FFFF
  {
    0xDC00 + (u - 0x10000) % 0x400
  }

  /** Pairs of surrogates and the code points past U+FFFF are in bijection. */
  lemma CombineIsBijective(u: int, high: int, low: int)
    ensures 0x10000 <= u <= 0x10FFFF ==>
      IsHighSurrogate(High(u)) && IsLowSurrogate(Low(u)) && Combine(High(u), Low(u)) == u
    ensures IsHighSurrogate(high) && IsLowSurrogate(low) ==>
      var v := Combine(high, low);
      0x10000 <= v <= 0x10FFFF && High(v) == high && Low(v) == low
  {
    if IsHighSurrogate(high) && IsLowSurrogate(low) {
      var v := Combine(high, low);
      assert v - 0x10000 == (high - 0xD800) * 0x400 + (low - 0xDC00);
    }
  }
}
