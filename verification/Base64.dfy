/** breUtils/encoding/base64.hpp: the encoding of section 4 of RFC 4648, bit by bit as the source computes it. */
module Base64 {
  import opened Wrappers
  import opened Texts

  type Byte = bv8

  const UPPER: string := "ABCDEFGHIJKLMNOPQRSTUVWXYZ"
  const LOWER: string := "abcdefghijklmnopqrstuvwxyz"
  const DIGITS: string := "0123456789"
  const TABLE: string := UPPER + LOWER + DIGITS + "+/"

  /** The rows of the decoder's `table`: 43 zeros, the values of `+` to `9`, `A` to `Z` and `a` to `z`, and zeros
      for the characters between them. */
  const NONE: seq<nat> := [0, 0, 0, 0, 0, 0, 0, 0, 0, 0, 0, 0, 0, 0, 0, 0, 0, 0, 0, 0, 0, 0]
  const PUNCTUATION: seq<nat> := [62, 0, 0, 0, 63]
  const DIGIT_VALUES: seq<nat> := [52, 53, 54, 55, 56, 57, 58, 59, 60, 61]
  const BETWEEN: seq<nat> := [0, 0, 0, 0, 0, 0, 0]
  const UPPER_VALUES: seq<nat> :=
    [0, 1, 2, 3, 4, 5, 6, 7, 8, 9, 10, 11, 12, 13, 14, 15, 16, 17, 18, 19, 20, 21, 22, 23, 24, 25]
  const BRACKETS: seq<nat> := [0, 0, 0, 0, 0, 0]
  const LOWER_VALUES: seq<nat> :=
    [26, 27, 28, 29, 30, 31, 32, 33, 34, 35, 36, 37, 38, 39, 40, 41, 42, 43, 44, 45, 46, 47, 48, 49, 50, 51]
  const VALUES: seq<nat> :=
    NONE + NONE[..21] + PUNCTUATION + DIGIT_VALUES + BETWEEN + UPPER_VALUES + BRACKETS + LOWER_VALUES

  function Symbol(v: Byte): char
    requires v < 64
  {
    TABLE[v as int]
  }

  const ENTRIES := 123

  /** The characters the decoder may look up. */
  predicate InTable(code: string) {
    forall i :: 0 <= i < |code| ==> code[i] as int < ENTRIES
  }

  lemma TableSize()
    ensures |VALUES| == ENTRIES
  {
  }

  /** `(unsigned char)table[c]` */
  function Value(c: char): Byte
    requires c as int < ENTRIES
  {
    TableSize();
    (VALUES[c as int] % 256) as Byte
  }

  predicate InAlphabet(c: char) {
    'A' <= c <= 'Z' || 'a' <= c <= 'z' || '0' <= c <= '9' || c == '+' || c == '/'
  }

  lemma LetterRows(k: nat)
    ensures k < 10 ==> DIGITS[k] as int == '0' as int + k
    ensures k < 26 ==> UPPER[k] as int == 'A' as int + k && LOWER[k] as int == 'a' as int + k
  {
  }

  lemma Letters(k: nat)
    ensures |TABLE| == 64 && TABLE[62] == '+' && TABLE[63] == '/'
    ensures k < 10 ==> TABLE[52 + k] == DIGITS[k]
    ensures k < 26 ==> TABLE[k] == UPPER[k] && TABLE[26 + k] == LOWER[k]
  {
  }

  lemma SymbolByRange(i: nat)
    requires i < 64
    ensures Symbol(i as Byte) as int ==
      if i < 26 then 'A' as int + i
      else if i < 52 then 'a' as int + i - 26
      else if i < 62 then '0' as int + i - 52
      else if i == 62 then '+' as int else '/' as int
  {
    hide TABLE, UPPER, LOWER, DIGITS;
    assert (i as Byte) as int == i;
    var k := if i < 26 then i else if i < 52 then i - 26 else if i < 62 then i - 52 else 0;
    LetterRows(k);
    Letters(k);
  }

  /** Where the rows of the table stand. */
  lemma Rows(k: nat)
    ensures |VALUES| == ENTRIES && VALUES['+' as int] == 62 && VALUES['/' as int] == 63
    ensures k < 10 ==> VALUES['0' as int + k] == DIGIT_VALUES[k]
    ensures k < 26 ==> VALUES['A' as int + k] == UPPER_VALUES[k] && VALUES['a' as int + k] == LOWER_VALUES[k]
  {
  }

  lemma RowContents(k: nat)
    ensures k < 10 ==> DIGIT_VALUES[k] == 52 + k
    ensures k < 26 ==> UPPER_VALUES[k] == k && LOWER_VALUES[k] == 26 + k
  {
  }

  lemma ValueByRange(i: nat)
    requires i < 64
    ensures Symbol(i as Byte) as int < ENTRIES && Value(Symbol(i as Byte)) as int == i
  {
    hide Symbol, VALUES, DIGIT_VALUES, UPPER_VALUES, LOWER_VALUES;
    SymbolByRange(i);
    var k := if i < 26 then i else if i < 52 then i - 26 else if i < 62 then i - 52 else 0;
    Rows(k);
    RowContents(k);
    assert VALUES[Symbol(i as Byte) as int] == i;
    hide Value;
    ValueOfEntry(Symbol(i as Byte), i);
  }

  lemma ValueOfEntry(c: char, i: nat)
    requires c as int < |VALUES| == ENTRIES && VALUES[c as int] == i < 256
    ensures Value(c) as int == i
  {
    hide VALUES;
    assert i % 256 == i;
  }

  lemma SymbolHasValue(v: Byte)
    requires v < 64
    ensures InAlphabet(Symbol(v)) && Symbol(v) as int < ENTRIES && Value(Symbol(v)) == v
  {
    hide Symbol, Value;
    SymbolByRange(v as int);
    ValueByRange(v as int);
  }

  lemma ValueHasSymbol(c: char)
    requires InAlphabet(c)
    ensures c as int < ENTRIES && Value(c) < 64 && Symbol(Value(c)) == c
  {
    hide Symbol, Value;
    var i :=
      if 'A' <= c <= 'Z' then c as int - 'A' as int
      else if 'a' <= c <= 'z' then c as int - 'a' as int + 26
      else if '0' <= c <= '9' then c as int - '0' as int + 52
      else if c == '+' then 62 else 63;
    SymbolByRange(i);
    ValueByRange(i);
    assert Symbol(i as Byte) == c;
  }

  /** Characters of the table outside of the alphabet count as 0. */
  lemma OthersHaveNoValue(c: char)
    requires c as int < ENTRIES && !InAlphabet(c)
    ensures Value(c) == 0
  {
  }

  // ---------- encoding ----------

  function First(a: Byte): Byte {
    (a >> 2) & 0x3F
  }

  function Second(a: Byte, b: Byte): Byte {
    ((a & 0x3) << 4) | ((b >> 4) & 0xF)
  }

  function Third(b: Byte, c: Byte): Byte {
    ((b & 0xF) << 2) | ((c >> 6) & 0x3)
  }

  function Fourth(c: Byte): Byte {
    c & 0x3F
  }

  lemma SixBits(a: Byte, b: Byte)
    ensures First(a) < 64 && Second(a, b) < 64 && Third(a, b) < 64 && Fourth(a) < 64
  {
  }

  /** The characters of at most three bytes; missing bytes count as 0 and show as padding. */
  function Group(s: seq<Byte>): (code: string)
    requires 0 < |s| <= 3
    ensures |code| == 4
  {
    SixBits(s[0], 0);
    if |s| == 1 then
      SixBits(s[0], 0);
      [Symbol(First(s[0])), Symbol(Second(s[0], 0)), '=', '=']
    else
      SixBits(s[0], s[1]);
      if |s| == 2 then
        SixBits(s[1], 0);
        [Symbol(First(s[0])), Symbol(Second(s[0], s[1])), Symbol(Third(s[1], 0)), '=']
      else
        SixBits(s[1], s[2]);
        SixBits(s[2], 0);
        [Symbol(First(s[0])), Symbol(Second(s[0], s[1])), Symbol(Third(s[1], s[2])), Symbol(Fourth(s[2]))]
  }

  function Encoded(s: seq<Byte>): (code: string)
    ensures |code| == (|s| + 2) / 3 * 4
  {
    if |s| == 0 then ""
    else if |s| <= 3 then Group(s)
    else Group(s[..3]) + Encoded(s[3..])
  }

  /** Whole groups of three bytes are encoded apart from what follows them. */
  lemma {:induction false} EncodedSplits(s: seq<Byte>, t: seq<Byte>)
    requires |s| % 3 == 0
    ensures Encoded(s + t) == Encoded(s) + Encoded(t)
  {
    hide Group;
    if s == [] {
      assert s + t == t;
    } else {
      EncodedSplits(s[3..], t);
      if t == [] {
        assert s + t == s;
      } else {
        assert (s + t)[..3] == s[..3] && (s + t)[3..] == s[3..] + t;
        if |s| == 3 {
          assert s[..3] == s && Encoded(s[3..]) == "";
        }
      }
    }
  }

  /** The body of the loop: four characters at `i` for the three bytes at `j`. */
  method PutGroup(str: seq<Byte>, j: nat, res: array<char>, i: nat)
    requires j + 2 < |str| && i + 4 <= res.Length
    modifies res
    ensures res[..i] == old(res[..i]) && res[i + 4..] == old(res[i + 4..])
    ensures res[i..i + 4] == Group(str[j..j + 3])
  {
    hide Symbol, First, Second, Third, Fourth;
    SixBits(str[j], str[j + 1]);
    SixBits(str[j + 1], str[j + 2]);
    SixBits(str[j + 2], 0);
    res[i] := Symbol(First(str[j]));
    res[i + 1] := Symbol(Second(str[j], str[j + 1]));
    res[i + 2] := Symbol(Third(str[j + 1], str[j + 2]));
    res[i + 3] := Symbol(Fourth(str[j + 2]));
  }

  /** What follows the loop: the last one or two bytes, whose padding stands in the buffer already. */
  method PutRest(str: seq<Byte>, j: nat, res: array<char>, i: nat)
    requires j < |str| <= j + 2 && i + 4 == res.Length
    requires res[i + 2] == '=' && res[i + 3] == '='
    modifies res
    ensures res[..i] == old(res[..i])
    ensures res[i..] == Group(str[j..])
  {
    hide Symbol, First, Second, Third, Fourth;
    SixBits(str[j], 0);
    res[i] := Symbol(First(str[j]));
    if j + 1 < |str| {
      SixBits(str[j], str[j + 1]);
      SixBits(str[j + 1], 0);
      res[i + 1] := Symbol(Second(str[j], str[j + 1]));
      res[i + 2] := Symbol(Third(str[j + 1], 0));
    } else {
      res[i + 1] := Symbol(Second(str[j], 0));
    }
  }

  method Encode(str: seq<Byte>) returns (code: string)
    ensures code == Encoded(str)
  {
    hide Encoded, Group;
    var len := (|str| + 2) / 3 * 4;
    var res := new char[len](_ => '=');
    var i, j := 0, 0;
    ghost var n := 0;
    NoGroup(str);
    while j + 2 < |str|
      invariant i == 4 * n && j == 3 * n && j <= |str|
      invariant res[..i] == Encoded(str[..j])
      invariant forall k :: i <= k < len ==> res[k] == '='
    {
      NextGroup(str, n);
      ghost var tail := res[i + 4..];
      assert forall k :: 0 <= k < |tail| ==> tail[k] == '=';
      PutGroup(str, j, res, i);
      assert res[..i + 4] == res[..i] + res[i..i + 4];
      assert forall k :: i + 4 <= k < len ==> res[k] == tail[k - (i + 4)];
      j, i, n := j + 3, i + 4, n + 1;
    }
    if j < |str| {
      NextGroup(str, n);
      PutRest(str, j, res, i);
      assert res[..] == res[..i] + res[i..];
      assert str[..|str|] == str;
    }
    assert j >= |str| ==> str[..j] == str && res[..i] == res[..];
    code := res[..];
  }

  lemma NoGroup(str: seq<Byte>)
    ensures Encoded(str[..0]) == ""
  {
  }

  lemma GroupFits(n: nat, length: nat)
    requires 3 * n < length
    ensures n + 1 <= (length + 2) / 3
    ensures 3 * n + 3 >= length ==> n + 1 == (length + 2) / 3
  {
  }

  lemma NextGroup(str: seq<Byte>, n: nat)
    requires 3 * n < |str|
    ensures 4 * n + 4 <= (|str| + 2) / 3 * 4
    ensures 3 * n + 3 >= |str| ==> 4 * n + 4 == (|str| + 2) / 3 * 4
    ensures
      var j := 3 * n;
      var end := if j + 3 <= |str| then j + 3 else |str|;
      Encoded(str[..end]) == Encoded(str[..j]) + Group(str[j..end])
  {
    var j := 3 * n;
    var end := if j + 3 <= |str| then j + 3 else |str|;
    GroupFits(n, |str|);
    assert Encoded(str[j..end]) == Group(str[j..end]);
    hide Encoded, Group;
    assert str[..end] == str[..j] + str[j..end];
    EncodedSplits(str[..j], str[j..end]);
  }

  // ---------- decoding ----------

  /** The three bytes of four characters. */
  function Triple(code: string): (bytes: seq<Byte>)
    requires |code| == 4 && InTable(code)
    ensures |bytes| == 3
  {
    var v0, v1, v2, v3 := Value(code[0]), Value(code[1]), Value(code[2]), Value(code[3]);
    [(v0 << 2) | (v1 >> 4), (v1 << 4) | (v2 >> 2), (v2 << 6) | v3]
  }

  /** Every complete group of four, the padded one included; a padding character counts as 0. */
  function Triples(code: string): (bytes: seq<Byte>)
    requires InTable(code)
    ensures |bytes| == |code| / 4 * 3
  {
    if |code| < 4 then []
    else
      OneGroupLess(|code|);
      Triple(code[..4]) + Triples(code[4..])
  }

  lemma OneGroupLess(n: nat)
    requires n >= 4
    ensures n / 4 * 3 == 3 + (n - 4) / 4 * 3
  {
  }

  predicate Contains(code: string, word: string) {
    Find(code, word).Some?
  }

  /** How many bytes the padding takes off: decided by a search through the whole text. */
  function Missing(code: string): (n: nat)
    ensures n <= 2 && n <= |code|
  {
    if Contains(code, "==") then 2 else if Contains(code, "=") then 1 else 0
  }

  /** The padding is found wherever it stands: two marks side by side count as two, any other mark as one. */
  lemma MissingMeans(code: string)
    ensures Missing(code) == 2 <==> exists i :: 0 <= i < |code| - 1 && code[i] == '=' && code[i + 1] == '='
    ensures Missing(code) == 0 <==> forall i :: 0 <= i < |code| ==> code[i] != '='
  {
    if Contains(code, "==") {
      var i := Find(code, "==").value;
      HasAt(code, i, "==", 0);
      HasAt(code, i, "==", 1);
    }
    if Contains(code, "=") {
      HasAt(code, Find(code, "=").value, "=", 0);
    }
    forall i | 0 <= i < |code| && code[i] == '=' ensures Has(code, i, "=") {
    }
    forall i | 0 <= i < |code| - 1 && code[i] == '=' && code[i + 1] == '=' ensures Has(code, i, "==") {
    }
  }

  /** The groups of four without an incomplete one at the end. */
  function Whole(code: string): (groups: string)
    ensures |groups| == |code| / 4 * 4 && |groups| / 4 == |code| / 4
  {
    code[..|code| / 4 * 4]
  }

  /** The groups that the loop reads: an incomplete one of three characters takes in the '\0' behind the text. */
  function Groups(code: string): (groups: string)
    ensures |groups| % 4 == 0
  {
    if |code| % 4 == 3 then code + ['\0'] else Whole(code)
  }

  /** `LengthError` is the exception of `std::string res(strLen, 0)`. */
  datatype Result<+T> = LengthError | Success(value: T)

  /** `strLen` */
  function StrLen(code: string): (n: int)
    ensures n <= |code| / 4 * 3
  {
    |code| / 4 * 3 - Missing(code)
  }

  /** The result for texts of any length: an incomplete group, read or not, does not show. */
  function Decoded(code: string): Result<seq<Byte>>
    requires InTable(Whole(code))
  {
    if StrLen(code) < 0 then LengthError else Success(Triples(Whole(code))[..StrLen(code)])
  }

  /** Decoding fails exactly on padding that no complete group holds up. */
  lemma DecodingFailsWhen(code: string)
    requires InTable(Whole(code))
    ensures Decoded(code).LengthError? <==> |code| < 4 && Contains(code, "=")
  {
    hide Triples, VALUES, InTable;
    if i :| 0 <= i <= |code| - 2 && Has(code, i, "==") {
      assert code[i..i + 1] == code[i..i + 2][..1];
      assert Has(code, i, "=");
    }
  }

  lemma {:induction false} TriplesSplit(a: string, b: string)
    requires |a| % 4 == 0 && InTable(a) && InTable(b)
    ensures InTable(a + b) && Triples(a + b) == Triples(a) + Triples(b)
  {
    hide Triple, VALUES;
    if a == "" {
      assert a + b == b;
    } else {
      TriplesSplit(a[4..], b);
      assert (a + b)[..4] == a[..4] && (a + b)[4..] == a[4..] + b;
    }
  }

  /** The body of the loop: three bytes at `j` for the four characters at `i`. */
  method PutTriple(code: string, i: nat, res: array<Byte>, j: nat)
    requires i + 4 <= |code| && j + 3 <= res.Length && InTable(code)
    modifies res
    ensures res[..j] == old(res[..j])
    ensures res[j..j + 3] == Triple(code[i..i + 4])
  {
    hide VALUES, Value;
    res[j] := (Value(code[i]) << 2) | (Value(code[i + 1]) >> 4);
    res[j + 1] := (Value(code[i + 1]) << 4) | (Value(code[i + 2]) >> 2);
    res[j + 2] := (Value(code[i + 2]) << 6) | Value(code[i + 3]);
  }

  /** The original sizes its result to `strLen` first and then stores whole groups of three, up to three bytes past
      the end; here the buffer holds whole groups and is cut to `strLen` at the end. */
  method Decode(code: string) returns (r: Result<seq<Byte>>)
    requires InTable(Groups(code))
    ensures InTable(Whole(code)) && r == Decoded(code)
  {
    hide Triple, VALUES, Missing;
    IncompleteGroupIsIgnored(code);
    var len := |code|;
    var strLen := len / 4 * 3 - Missing(code);
    assert strLen == StrLen(code);
    hide StrLen;
    if strLen < 0 {
      return LengthError;
    }
    var groups := Groups(code);
    var res := new Byte[|groups| / 4 * 3](_ => 0);
    var i, j := 0, 0;
    ghost var n := 0;
    NoTriple(groups);
    hide Triples, Groups, Whole, InTable;
    while i < len - 2
      invariant i == 4 * n && j == 3 * n && i <= |groups|
      invariant res[..j] == Triples(groups[..i])
    {
      LoopReadsGroups(code, n);
      NextTriple(groups, n);
      PutTriple(groups, i, res, j);
      assert res[..j + 3] == res[..j] + res[j..j + 3];
      j, i, n := j + 3, i + 4, n + 1;
    }
    LoopReadsGroups(code, n);
    assert groups[..i] == groups && res[..j] == res[..];
    assert res[..strLen] == Triples(Whole(code))[..strLen];
    r := Success(res[..strLen]);
  }

  /** The test of the loop holds as long as there is a group to read. */
  lemma LoopReadsGroups(code: string, n: nat)
    requires 4 * n <= |Groups(code)|
    ensures 4 * n < |code| - 2 ==> 4 * n + 4 <= |Groups(code)|
    ensures 4 * n >= |code| - 2 ==> 4 * n == |Groups(code)|
    ensures |Groups(code)| / 4 * 3 * 4 == |Groups(code)| * 3
  {
    var m, r := |code| / 4, |code| % 4;
    assert |code| == 4 * m + r;
    assert |Groups(code)| == if r == 3 then 4 * m + 4 else 4 * m;
  }

  lemma NoTriple(code: string)
    ensures Triples(code[..0]) == []
  {
  }

  lemma IncompleteGroupIsIgnored(code: string)
    requires InTable(Groups(code))
    ensures InTable(Whole(code)) && Triples(Whole(code)) <= Triples(Groups(code))
  {
    hide Triples, VALUES;
    var whole := Whole(code);
    var last := Groups(code)[|whole|..];
    assert Groups(code) == whole + last;
    TriplesSplit(whole, last);
  }

  lemma NextTriple(code: string, n: nat)
    requires 4 * n + 4 <= |code| && InTable(code)
    ensures Triples(code[..4 * n + 4]) == Triples(code[..4 * n]) + Triple(code[4 * n..4 * n + 4])
  {
    hide Triple, VALUES;
    var i := 4 * n;
    assert code[..i + 4] == code[..i] + code[i..i + 4];
    TriplesSplit(code[..i], code[i..i + 4]);
    assert code[i..i + 4][..4] == code[i..i + 4] && code[i..i + 4][4..] == "";
  }

  /** The four characters are the digits, in base 64, of the number that the three bytes are in base 256. */
  lemma SameNumber(a: Byte, b: Byte, c: Byte)
    ensures (First(a) as bv32 << 18) | (Second(a, b) as bv32 << 12) | (Third(b, c) as bv32 << 6) | (Fourth(c) as bv32)
         == (a as bv32 << 16) | (b as bv32 << 8) | (c as bv32)
  {
  }

  // ---------- the two are inverse to each other ----------

  /** The bits that encoding cuts up come together again. */
  lemma BitsRegroup(a: Byte, b: Byte, c: Byte)
    ensures (First(a) << 2) | (Second(a, b) >> 4) == a
    ensures (Second(a, b) << 4) | (Third(b, c) >> 2) == b
    ensures (Third(b, c) << 6) | Fourth(c) == c
  {
  }

  /** The values of four characters are the ones that encoding the decoded bytes gives. */
  lemma ValuesRegroup(v0: Byte, v1: Byte, v2: Byte, v3: Byte)
    requires v0 < 64 && v1 < 64 && v2 < 64 && v3 < 64
    ensures
      var a, b, c := (v0 << 2) | (v1 >> 4), (v1 << 4) | (v2 >> 2), (v2 << 6) | v3;
      First(a) == v0 && Second(a, b) == v1 && Third(b, c) == v2 && Fourth(c) == v3
  {
  }

  lemma PaddingHasNoValue()
    ensures '=' as int < ENTRIES && Value('=') == 0
  {
  }

  /** The bytes of four characters in terms of their values. */
  lemma TripleOfValues(code: string, v0: Byte, v1: Byte, v2: Byte, v3: Byte)
    requires |code| == 4 && InTable(code)
    requires Value(code[0]) == v0 && Value(code[1]) == v1 && Value(code[2]) == v2 && Value(code[3]) == v3
    ensures Triple(code) == [(v0 << 2) | (v1 >> 4), (v1 << 4) | (v2 >> 2), (v2 << 6) | v3]
  {
    hide Value;
  }

  /** The characters of a group and their values. */
  lemma OneByte(a: Byte)
    ensures InTable(Group([a])) && [a] <= Triple(Group([a]))
  {
    hide First, Second, Symbol, Value, Triple;
    SixBits(a, 0);
    SymbolHasValue(First(a));
    SymbolHasValue(Second(a, 0));
    PaddingHasNoValue();
    TripleOfValues(Group([a]), First(a), Second(a, 0), 0, 0);
    BitsRegroup(a, 0, 0);
    assert Triple(Group([a]))[0] == (First(a) << 2) | (Second(a, 0) >> 4);
  }

  lemma TwoBytes(a: Byte, b: Byte)
    ensures InTable(Group([a, b])) && [a, b] <= Triple(Group([a, b]))
  {
    hide First, Second, Third, Symbol, Value, Triple;
    SixBits(a, b);
    SixBits(b, 0);
    SymbolHasValue(First(a));
    SymbolHasValue(Second(a, b));
    SymbolHasValue(Third(b, 0));
    PaddingHasNoValue();
    TripleOfValues(Group([a, b]), First(a), Second(a, b), Third(b, 0), 0);
    BitsRegroup(a, b, 0);
  }

  lemma ThreeBytes(a: Byte, b: Byte, c: Byte)
    ensures InTable(Group([a, b, c])) && [a, b, c] == Triple(Group([a, b, c]))
  {
    hide First, Second, Third, Fourth, Symbol, Value, Triple;
    SixBits(a, b);
    SixBits(b, c);
    SixBits(c, 0);
    SymbolHasValue(First(a));
    SymbolHasValue(Second(a, b));
    SymbolHasValue(Third(b, c));
    SymbolHasValue(Fourth(c));
    TripleOfValues(Group([a, b, c]), First(a), Second(a, b), Third(b, c), Fourth(c));
    BitsRegroup(a, b, c);
  }

  lemma GroupIsDecoded(s: seq<Byte>)
    requires 0 < |s| <= 3
    ensures InTable(Group(s)) && s <= Triple(Group(s))
  {
    hide Group, Triple, InTable;
    if |s| == 1 {
      OneByte(s[0]);
      assert s == [s[0]];
    } else if |s| == 2 {
      TwoBytes(s[0], s[1]);
      assert s == [s[0], s[1]];
    } else {
      ThreeBytes(s[0], s[1], s[2]);
      assert s == [s[0], s[1], s[2]];
    }
  }

  /** Symbols of the alphabet, and `pad` padding characters at the end. */
  predicate Shape(code: string, pad: nat) {
    && |code| % 4 == 0 && pad <= 2 && pad <= |code|
    && (forall i :: 0 <= i < |code| - pad ==> InAlphabet(code[i]))
    && (forall i :: |code| - pad <= i < |code| ==> code[i] == '=')
  }

  /** On texts of this shape the search for padding finds what is there. */
  lemma MissingOfShape(code: string, pad: nat)
    requires Shape(code, pad)
    ensures Missing(code) == pad
  {
    assert forall i :: 0 <= i < |code| - pad ==> code[i] != '=';
    if pad == 2 {
      assert Has(code, |code| - 2, "==");
    } else if pad == 1 {
      assert Has(code, |code| - 1, "=");
    }
    hide Find, Has, Shape;
    if Contains(code, "==") {
      var i := Find(code, "==").value;
      HasAt(code, i, "==", 0);
      HasAt(code, i, "==", 1);
    }
    if Contains(code, "=") {
      HasAt(code, Find(code, "=").value, "=", 0);
    }
  }

  lemma ShapeInTable(code: string, pad: nat)
    requires Shape(code, pad)
    ensures InTable(code)
  {
    forall i | 0 <= i < |code| ensures code[i] as int < ENTRIES {
      PaddingHasNoValue();
      if i < |code| - pad {
        ValueHasSymbol(code[i]);
      }
    }
  }

  /** The padding that `n` bytes need. */
  function PadOf(n: nat): nat {
    (3 - n % 3) % 3
  }

  lemma PadRepeats(n: nat)
    ensures PadOf(n + 3) == PadOf(n) && PadOf(3) == 0
  {
  }

  lemma GroupShape(s: seq<Byte>)
    requires 0 < |s| <= 3
    ensures Shape(Group(s), PadOf(|s|))
  {
    hide First, Second, Third, Fourth, Symbol, Value, VALUES;
    var a := s[0];
    var b := if |s| > 1 then s[1] else 0;
    var c := if |s| > 2 then s[2] else 0;
    SixBits(a, b);
    SixBits(b, c);
    SixBits(c, 0);
    SymbolHasValue(First(a));
    SymbolHasValue(Second(a, b));
    SymbolHasValue(Third(b, c));
    SymbolHasValue(Fourth(c));
  }

  lemma {:induction false} EncodedShape(s: seq<Byte>)
    ensures Shape(Encoded(s), PadOf(|s|))
  {
    hide Group, InAlphabet;
    if 0 < |s| <= 3 {
      GroupShape(s);
    } else if |s| > 3 {
      hide Encoded, PadOf;
      PadRepeats(|s| - 3);
      EncodedShape(s[..3]);
      EncodedShape(s[3..]);
      EncodedSplits(s[..3], s[3..]);
      assert s == s[..3] + s[3..];
      ShapeGrows(Encoded(s[..3]), Encoded(s[3..]), PadOf(|s|));
    }
  }

  lemma ShapeGrows(a: string, b: string, pad: nat)
    requires Shape(a, 0) && Shape(b, pad)
    ensures Shape(a + b, pad)
  {
    hide InAlphabet;
  }

  lemma {:induction false} TriplesOfEncoded(s: seq<Byte>)
    requires InTable(Encoded(s))
    ensures s <= Triples(Encoded(s))
  {
    hide Group, Triple, VALUES;
    if 0 < |s| <= 3 {
      GroupIsDecoded(s);
      assert Group(s)[..4] == Group(s);
    } else if |s| > 3 {
      var g, rest := Group(s[..3]), Encoded(s[3..]);
      GroupIsDecoded(s[..3]);
      assert Encoded(s)[..4] == g && Encoded(s)[4..] == rest;
      EncodedShape(s[3..]);
      ShapeInTable(rest, PadOf(|s[3..]|));
      TriplesOfEncoded(s[3..]);
      assert s == s[..3] + s[3..];
    }
  }

  lemma CompleteIsDecoded(code: string, bytes: seq<Byte>)
    requires |code| % 4 == 0 && InTable(code) && bytes <= Triples(code) && |bytes| == StrLen(code)
    ensures Whole(code) == code && Decoded(code) == Success(bytes)
  {
    hide StrLen, InTable, Triples;
    assert Whole(code) == code;
    hide Whole;
    assert Triples(code)[..StrLen(code)] == bytes;
  }

  lemma LengthOfDecoded(n: nat)
    ensures (n + 2) / 3 * 4 % 4 == 0 && (n + 2) / 3 * 4 / 4 * 3 - PadOf(n) == n
  {
  }

  /** Decoding undoes encoding, for every byte string. */
  lemma DecodeAfterEncode(s: seq<Byte>)
    ensures InTable(Whole(Encoded(s))) && Decoded(Encoded(s)) == Success(s)
  {
    hide Encoded, Triples, VALUES, Missing, Shape, InTable;
    EncodedShape(s);
    ShapeInTable(Encoded(s), PadOf(|s|));
    MissingOfShape(Encoded(s), PadOf(|s|));
    TriplesOfEncoded(s);
    LengthOfDecoded(|s|);
    CompleteIsDecoded(Encoded(s), s);
  }

  /** The canonical texts of section 3.5 of RFC 4648: the bits that the padding makes superfluous are 0. */
  predicate Canonical(code: string) {
    var n, pad := |code|, Missing(code);
    && Shape(code, pad)
    && InTable(code)
    && (pad == 2 ==> Value(code[n - 3]) & 0xF == 0)
    && (pad == 1 ==> Value(code[n - 2]) & 0x3 == 0)
  }

  lemma GroupOfTriple(code: string, pad: nat)
    requires |code| == 4 && Shape(code, pad) && InTable(code)
    requires pad == 2 ==> Value(code[1]) & 0xF == 0
    requires pad == 1 ==> Value(code[2]) & 0x3 == 0
    ensures Group(Triple(code)[..3 - pad]) == code
  {
    hide First, Second, Third, Fourth, Symbol, Value, VALUES;
    var v0, v1, v2, v3 := Value(code[0]), Value(code[1]), Value(code[2]), Value(code[3]);
    var s := Triple(code)[..3 - pad];
    var a, b, c := (v0 << 2) | (v1 >> 4), (v1 << 4) | (v2 >> 2), (v2 << 6) | v3;
    assert Triple(code) == [a, b, c];
    hide Triple;
    PaddingHasNoValue();
    ValueHasSymbol(code[0]);
    ValueHasSymbol(code[1]);
    ValueHasSymbol(if pad < 2 then code[2] else code[0]);
    ValueHasSymbol(if pad < 1 then code[3] else code[0]);
    ValuesRegroup(v0, v1, v2, v3);
    SuperfluousBits(v0, v1, v2);
    hide InAlphabet;
    if pad == 2 {
      assert s == [a] && Second(a, 0) == v1;
    } else if pad == 1 {
      assert s == [a, b] && Third(b, 0) == v2;
    } else {
      assert s == [a, b, c];
    }
  }

  lemma SuperfluousBits(v0: Byte, v1: Byte, v2: Byte)
    requires v0 < 64 && v1 < 64 && v2 < 64
    ensures v1 & 0xF == 0 ==> Second((v0 << 2) | (v1 >> 4), 0) == v1
    ensures v2 & 0x3 == 0 ==> Third((v1 << 4) | (v2 >> 2), 0) == v2
  {
  }

  /** What a canonical text decodes to. */
  function Plain(code: string): (bytes: seq<Byte>)
    requires Canonical(code)
    ensures Whole(code) == code && Decoded(code) == Success(bytes)
  {
    var bytes := Triples(code)[..StrLen(code)];
    CompleteIsDecoded(code, bytes);
    bytes
  }

  lemma PlainSplits(code: string)
    requires Canonical(code) && |code| > 4
    ensures
      var g, rest := code[..4], code[4..];
      Shape(g, 0) && InTable(g) && Canonical(rest) && Plain(code) == Triple(g) + Plain(rest)
  {
    hide Triple, VALUES, Value, Missing;
    var rest, pad := code[4..], Missing(code);
    assert Shape(rest, pad);
    MissingOfShape(rest, pad);
  }

  /** Encoding undoes decoding, for every canonical text. */
  lemma {:induction false} EncodeAfterDecode(code: string)
    requires Canonical(code)
    ensures Encoded(Plain(code)) == code
  {
    hide Group, Triple, VALUES, Value, Missing;
    if |code| == 4 {
      assert code[..4] == code && Triples(code) == Triple(code);
      GroupOfTriple(code, Missing(code));
    } else if code != "" {
      var g, rest := code[..4], code[4..];
      hide Plain;
      PlainSplits(code);
      GroupOfTriple(g, 0);
      assert Triple(g)[..3] == Triple(g);
      hide Canonical;
      EncodeAfterDecode(rest);
      EncodedSplits(Triple(g), Plain(rest));
    }
  }

  lemma ClearedBits(a: Byte)
    ensures Second(a, 0) & 0xF == 0 && Third(a, 0) & 0x3 == 0
  {
  }

  lemma GroupIsCanonical(s: seq<Byte>)
    requires 0 < |s| <= 3
    ensures Canonical(Group(s))
  {
    hide First, Second, Third, Fourth, Symbol, Value, VALUES, Missing;
    GroupShape(s);
    MissingOfShape(Group(s), PadOf(|s|));
    ShapeInTable(Group(s), PadOf(|s|));
    if |s| < 3 {
      var last := s[|s| - 1];
      SixBits(last, 0);
      ClearedBits(last);
      SymbolHasValue(if |s| == 1 then Second(last, 0) else Third(last, 0));
    }
  }

  /** What the encoder writes is canonical, so the two are bijections between byte strings and canonical texts. */
  lemma {:induction false} EncodedIsCanonical(s: seq<Byte>)
    ensures Canonical(Encoded(s))
  {
    hide Group, Value, VALUES, Missing;
    EncodedShape(s);
    MissingOfShape(Encoded(s), PadOf(|s|));
    ShapeInTable(Encoded(s), PadOf(|s|));
    if 0 < |s| <= 3 {
      GroupIsCanonical(s);
    } else if |s| > 3 {
      var rest := Encoded(s[3..]);
      EncodedIsCanonical(s[3..]);
      EncodedShape(s[3..]);
      MissingOfShape(rest, PadOf(|s[3..]|));
    }
  }
}
