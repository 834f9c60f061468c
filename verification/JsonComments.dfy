/** `removeComments` of breUtils/Json/json_parse.hpp: one pass over the text with three flags. */
module JsonComments {
  import opened Texts

  datatype Flags = Flags(inString: bool, inLine: bool, inBlock: bool)

  const OUTSIDE := Flags(false, false, false)

  predicate StandsAt(s: string, i: nat, a: char, b: char) {
    i + 1 < |s| && s[i] == a && s[i + 1] == b
  }

  /** A quotation mark that opens or closes a literal: not after a backslash, unless that one has another in front
      of it. */
  predicate IsDelimiter(s: string, i: nat)
    requires i < |s|
  {
    s[i] == '"' && (i == 0 || s[i - 1] != '\\' || (i >= 2 && s[i - 2] == '\\'))
  }

  /** What one turn of the loop keeps, and where and how it goes on. */
  datatype Turn = Turn(kept: string, next: nat, flags: Flags)

  function Look(s: string, i: nat, f: Flags): (t: Turn)
    requires i < |s|
    ensures i < t.next
  {
    if f.inLine then
      if s[i] == '\n' then Turn("\n", i + 1, f.(inLine := false)) else Turn("", i + 1, f)
    else if f.inBlock then
      if StandsAt(s, i, '*', '/') then Turn("", i + 2, f.(inBlock := false)) else Turn("", i + 1, f)
    else if IsDelimiter(s, i) then Turn([s[i]], i + 1, f.(inString := !f.inString))
    else if !f.inString && StandsAt(s, i, '/', '/') then Turn("", i + 2, f.(inLine := true))
    else if !f.inString && StandsAt(s, i, '/', '*') then Turn("", i + 2, f.(inBlock := true))
    else Turn([s[i]], i + 1, f)
  }

  /** What is kept of the text from `i` on. */
  function Strip(s: string, i: nat, f: Flags): string
    decreases |s| - i
  {
    if i >= |s| then ""
    else
      var t := Look(s, i, f);
      t.kept + Strip(s, t.next, t.flags)
  }

  lemma TurnIsTaken(s: string, i: nat, f: Flags, t: Turn)
    requires i < |s| && Look(s, i, f) == t
    ensures Strip(s, i, f) == t.kept + Strip(s, t.next, t.flags)
    ensures t.kept == "" ==> Strip(s, i, f) == Strip(s, t.next, t.flags)
  {
    hide Look;
    var rest := Strip(s, t.next, t.flags);
    assert "" + rest == rest;
  }

  lemma KeptSoFar(s: string, i: nat, f: Flags, t: Turn, before: string)
    requires i < |s| && Look(s, i, f) == t
    ensures before + Strip(s, i, f) == before + t.kept + Strip(s, t.next, t.flags)
  {
    hide Look;
  }

  method RemoveComments(str: string) returns (result: string)
    ensures result == Strip(str, 0, OUTSIDE)
  {
    hide Strip;
    result := "";
    var inString, inSingleLineComment, inMultiLineComment := false, false, false;
    var i := 0;
    while i < |str|
      invariant
        result + Strip(str, i, Flags(inString, inSingleLineComment, inMultiLineComment)) == Strip(str, 0, OUTSIDE)
      decreases |str| - i
    {
      ghost var before, start, f := result, i, Flags(inString, inSingleLineComment, inMultiLineComment);
      ghost var t := Look(str, i, f);
      if inSingleLineComment {
        if str[i] == '\n' {
          inSingleLineComment := false;
          result := result + [str[i]];
        }
      } else if inMultiLineComment {
        if str[i] == '*' && i + 1 < |str| && str[i + 1] == '/' {
          inMultiLineComment := false;
          i := i + 1;
        }
      } else if
        && str[i] == '"'
        && (i == 0 || str[i - 1] != '\\' || (i >= 2 && str[i - 1] == '\\' && str[i - 2] == '\\'))
      {
        inString := !inString;
        result := result + [str[i]];
      } else if !inString && str[i] == '/' && i + 1 < |str| && str[i + 1] == '/' {
        inSingleLineComment := true;
        i := i + 1;
      } else if !inString && str[i] == '/' && i + 1 < |str| && str[i + 1] == '*' {
        inMultiLineComment := true;
        i := i + 1;
      } else {
        result := result + [str[i]];
      }
      i := i + 1;
      assert i == t.next && t.flags == Flags(inString, inSingleLineComment, inMultiLineComment);
      assert result == before + t.kept;
      hide Look;
      KeptSoFar(str, start, f, t, before);
    }
    NothingLeft(str, i, Flags(inString, inSingleLineComment, inMultiLineComment));
  }

  lemma NothingLeft(s: string, i: nat, f: Flags)
    requires i >= |s|
    ensures Strip(s, i, f) == ""
  {
  }

  // ---------- commented texts ----------

  /** A text with comments: tokens and white space outside literals, the inside of a literal, and comments. */
  datatype Piece = Plain(text: string) | Literal(body: string) | LineComment(text: string) | BlockComment(text: string)

  /** The inside of a JSON literal: a backslash takes the next character with it, and no quotation mark stands alone
      (section 7 of RFC 8259). */
  predicate IsBody(body: string)
    decreases |body|
  {
    if body == "" then true
    else if body[0] == '\\' then |body| > 1 && IsBody(body[2..])
    else body[0] != '"' && IsBody(body[1..])
  }

  /** Every quotation mark follows a backslash, and a backslash at the end follows another one. */
  predicate Escaped(body: string) {
    && (forall i :: 0 <= i < |body| && body[i] == '"' ==> i > 0 && body[i - 1] == '\\')
    && (body != "" && body[|body| - 1] == '\\' ==> |body| > 1 && body[|body| - 2] == '\\')
  }

  /** An escaped quotation mark that counts as a delimiter, because the backslash that escapes it follows another. */
  predicate Misread(body: string, k: nat)
    requires k < |body|
  {
    k >= 2 && body[k] == '"' && body[k - 1] == '\\' && body[k - 2] == '\\'
  }

  /** Is `inString` set in front of index `n`? It is while the number of misread marks is even. */
  predicate Inside(body: string, n: nat)
    requires n <= |body|
  {
    n == 0 || Inside(body, n - 1) != Misread(body, n - 1)
  }

  predicate OpensComment(body: string, n: nat) {
    StandsAt(body, n, '/', '/') || StandsAt(body, n, '/', '*')
  }

  /** The misread marks cancel out, and none of the text between them looks like a comment. */
  predicate Survives(body: string) {
    Inside(body, |body|) && !IsCut(body, 0)
  }

  /** Something from index `n` on looks like a comment where the body passes for text outside of a literal. */
  predicate IsCut(body: string, n: nat) {
    exists k :: n <= k < |body| && !Inside(body, k) && OpensComment(body, k)
  }

  predicate WellFormed(p: Piece) {
    match p
    case Plain(text) =>
      && (forall i :: 0 <= i < |text| ==> text[i] != '"' && !OpensComment(text, i))
      && (text != "" ==> text[|text| - 1] != '/' && text[|text| - 1] != '\\')
    case Literal(body) => Escaped(body) && Survives(body)
    case LineComment(text) => forall i :: 0 <= i < |text| ==> text[i] != '\n'
    case BlockComment(text) => forall i :: 0 <= i < |text| ==> !StandsAt(text, i, '*', '/')
  }

  function Show(p: Piece): string {
    match p
    case Plain(text) => text
    case Literal(body) => "\"" + body + "\""
    case LineComment(text) => "//" + text + "\n"
    case BlockComment(text) => "/*" + text + "*/"
  }

  /** What is to be left: of a line comment, its line break. */
  function Bare(p: Piece): string {
    match p
    case LineComment(_) => "\n"
    case BlockComment(_) => ""
    case _ => Show(p)
  }

  function ShowAll(ps: seq<Piece>): string {
    if ps == [] then "" else Show(ps[0]) + ShowAll(ps[1..])
  }

  function BareAll(ps: seq<Piece>): string {
    if ps == [] then "" else Bare(ps[0]) + BareAll(ps[1..])
  }

  /** How the text ends: with a piece, or in the middle of a comment. */
  datatype Ending = Complete | OpenLine(text: string) | OpenBlock(text: string)

  predicate ProperEnding(e: Ending) {
    match e
    case Complete => true
    case OpenLine(text) => WellFormed(LineComment(text))
    case OpenBlock(text) => WellFormed(BlockComment(text))
  }

  function ShowEnding(e: Ending): string {
    match e
    case Complete => ""
    case OpenLine(text) => "//" + text
    case OpenBlock(text) => "/*" + text
  }

  // ---------- piece by piece ----------

  lemma CharsStand(s: string, i: nat, text: string)
    requires Has(s, i, text)
    ensures forall k :: 0 <= k < |text| ==> s[i + k] == text[k]
  {
    forall k | 0 <= k < |text| ensures s[i + k] == text[k] {
      assert s[i + k] == s[i..i + |text|][k];
    }
  }

  /** Nothing in front of `i` that could turn a quotation mark at `i` into an escaped one. */
  predicate Clear(s: string, i: nat) {
    0 < i <= |s| ==> s[i - 1] != '\\'
  }

  lemma PlainTurn(s: string, i: nat, text: string)
    requires text != "" && Has(s, i, text) && WellFormed(Plain(text))
    ensures i < |s| && Look(s, i, OUTSIDE) == Turn([text[0]], i + 1, OUTSIDE)
  {
    CharsStand(s, i, text);
    assert s[i + 0] == text[0] && !OpensComment(text, 0);
    if |text| > 1 {
      assert s[i + 1] == text[1];
    }
  }

  lemma PlainShrinks(text: string)
    requires text != "" && WellFormed(Plain(text))
    ensures WellFormed(Plain(text[1..]))
  {
    var rest := text[1..];
    forall i | 0 <= i < |rest| ensures rest[i] != '"' && !OpensComment(rest, i) {
      assert rest[i] == text[i + 1] && !OpensComment(text, i + 1);
    }
  }

  lemma {:induction false} PlainIsKept(s: string, i: nat, text: string)
    requires Has(s, i, text) && WellFormed(Plain(text))
    ensures Strip(s, i, OUTSIDE) == text + Strip(s, i + |text|, OUTSIDE)
    decreases |text|
  {
    if text != "" {
      hide Strip, Look;
      assert text == [text[0]] + text[1..];
      HasSplit(s, i, [text[0]], text[1..]);
      PlainTurn(s, i, text);
      TurnIsTaken(s, i, OUTSIDE, Turn([text[0]], i + 1, OUTSIDE));
      PlainShrinks(text);
      hide Has, WellFormed;
      PlainIsKept(s, i + 1, text[1..]);
    }
  }

  /** The flags in front of index `n` of a body. */
  function FlagsAt(body: string, n: nat): Flags
    requires n <= |body|
  {
    OUTSIDE.(inString := Inside(body, n))
  }

  /** The flags behind the closing mark. */
  function FlagsBehind(body: string): Flags {
    OUTSIDE.(inString := !Inside(body, |body|))
  }

  /** The characters of a literal where the loop sees them. */
  lemma BodyStands(s: string, i: nat, body: string, n: nat)
    requires n <= |body| && Has(s, i, body + "\"")
    ensures i + n < |s| && s[i + n] == if n < |body| then body[n] else '"'
    ensures n > 0 ==> s[i + n - 1] == body[n - 1]
    ensures n > 1 ==> s[i + n - 2] == body[n - 2]
    ensures n < |body| ==> i + n + 1 < |s| && s[i + n + 1] == if n + 1 < |body| then body[n + 1] else '"'
  {
    var whole := body + "\"";
    CharsStand(s, i, whole);
    assert s[i + n] == whole[n];
    if n < |body| {
      assert s[i + (n + 1)] == whole[n + 1];
    }
    if n > 0 {
      assert s[i + (n - 1)] == whole[n - 1] == body[n - 1];
    }
    if n > 1 {
      assert s[i + (n - 2)] == whole[n - 2] == body[n - 2];
    }
  }

  /** The turns of the loop inside a literal and at its end. */
  lemma BodyTurn(s: string, i: nat, body: string, n: nat)
    requires n <= |body| && Has(s, i, body + "\"") && i > 0 && s[i - 1] == '"' && Escaped(body)
    requires n < |body| ==> Inside(body, n) || !OpensComment(body, n)
    ensures i + n < |s|
    ensures n < |body| ==> Look(s, i + n, FlagsAt(body, n)) == Turn([body[n]], i + n + 1, FlagsAt(body, n + 1))
    ensures n == |body| ==> Look(s, i + n, FlagsAt(body, n)) == Turn("\"", i + n + 1, FlagsBehind(body))
  {
    BodyStands(s, i, body, n);
    if n < |body| {
      assert IsDelimiter(s, i + n) <==> Misread(body, n);
    } else {
      assert IsDelimiter(s, i + n);
    }
  }

  lemma BodyTurnIsTaken(s: string, i: nat, body: string, n: nat)
    requires n <= |body| && Has(s, i, body + "\"") && i > 0 && s[i - 1] == '"' && Escaped(body)
    requires n < |body| ==> Inside(body, n) || !OpensComment(body, n)
    ensures i + n < |s|
    ensures n < |body| ==> Strip(s, i + n, FlagsAt(body, n)) == [body[n]] + Strip(s, i + n + 1, FlagsAt(body, n + 1))
    ensures n == |body| ==> Strip(s, i + n, FlagsAt(body, n)) == "\"" + Strip(s, i + n + 1, FlagsBehind(body))
  {
    hide Strip, Look, Has, Escaped, Inside, OpensComment, FlagsAt, FlagsBehind;
    BodyTurn(s, i, body, n);
    TurnIsTaken(s, i + n, FlagsAt(body, n), Look(s, i + n, FlagsAt(body, n)));
  }

  lemma CutHereOrLater(body: string, n: nat)
    requires n <= |body|
    ensures IsCut(body, n) <==> n < |body| && ((!Inside(body, n) && OpensComment(body, n)) || IsCut(body, n + 1))
  {
    hide Inside, OpensComment;
  }

  /** Unless something in it looks like a comment, all of a body is kept. */
  lemma {:induction false} BodyIsKept(s: string, i: nat, body: string, n: nat)
    requires n <= |body| && Has(s, i, body + "\"") && i > 0 && s[i - 1] == '"' && Escaped(body) && !IsCut(body, n)
    ensures Strip(s, i + n, FlagsAt(body, n)) == body[n..] + "\"" + Strip(s, i + |body| + 1, FlagsBehind(body))
    decreases |body| - n
  {
    hide Strip, Has, Escaped, IsCut, Inside, OpensComment, FlagsAt, FlagsBehind;
    CutHereOrLater(body, n);
    BodyTurnIsTaken(s, i, body, n);
    if n < |body| {
      BodyIsKept(s, i, body, n + 1);
      assert body[n..] == [body[n]] + body[n + 1..];
    }
  }

  /** Nothing is ever added. */
  lemma {:induction false} StripShrinks(s: string, i: nat, f: Flags)
    requires i <= |s|
    ensures |Strip(s, i, f)| <= |s| - i
    decreases |s| - i
  {
    if i < |s| {
      var t := Look(s, i, f);
      assert t.next <= |s| && |t.kept| <= t.next - i;
      hide Look;
      StripShrinks(s, t.next, t.flags);
    }
  }

  lemma CommentIsDropped(s: string, i: nat, body: string, n: nat)
    requires n < |body| && Has(s, i, body + "\"") && !Inside(body, n) && OpensComment(body, n)
    ensures i + n + 2 <= |s| && |Strip(s, i + n, FlagsAt(body, n))| <= |s| - (i + n + 2)
  {
    BodyStands(s, i, body, n);
    var t := Look(s, i + n, FlagsAt(body, n));
    assert t.kept == "" && t.next == i + n + 2;
    hide Look, Strip;
    TurnIsTaken(s, i + n, FlagsAt(body, n), t);
    StripShrinks(s, t.next, t.flags);
  }

  /** If something in it looks like a comment, some of a body is lost. */
  lemma {:induction false} BodyIsCut(s: string, i: nat, body: string, n: nat)
    requires n <= |body| && Has(s, i, body + "\"") && i > 0 && s[i - 1] == '"' && Escaped(body) && IsCut(body, n)
    ensures i + n < |s| && |Strip(s, i + n, FlagsAt(body, n))| < |s| - (i + n)
    decreases |body| - n
  {
    hide Strip, Has, Escaped, IsCut, Inside, OpensComment, FlagsAt, FlagsBehind;
    CutHereOrLater(body, n);
    if !Inside(body, n) && OpensComment(body, n) {
      CommentIsDropped(s, i, body, n);
    } else {
      BodyTurnIsTaken(s, i, body, n);
      BodyIsCut(s, i, body, n + 1);
    }
  }

  lemma LineTurn(s: string, i: nat, text: string)
    requires Has(s, i, text + "\n") && (text != "" ==> text[0] != '\n')
    ensures i < |s|
    ensures
      var f := OUTSIDE.(inLine := true);
      Look(s, i, f) == if text == "" then Turn("\n", i + 1, OUTSIDE) else Turn("", i + 1, f)
    ensures text != "" ==> Has(s, i + 1, text[1..] + "\n")
  {
    var whole := text + "\n";
    CharsStand(s, i, whole);
    assert s[i + 0] == whole[0];
    if text != "" {
      assert whole == [text[0]] + (text[1..] + "\n");
      HasSplit(s, i, [text[0]], text[1..] + "\n");
    }
  }

  lemma {:induction false} LineIsDropped(s: string, i: nat, text: string)
    requires Has(s, i, text + "\n") && WellFormed(LineComment(text))
    ensures Strip(s, i, OUTSIDE.(inLine := true)) == "\n" + Strip(s, i + |text| + 1, OUTSIDE)
    decreases |text|
  {
    hide Strip;
    var f := OUTSIDE.(inLine := true);
    LineTurn(s, i, text);
    TurnIsTaken(s, i, f, Look(s, i, f));
    hide Look, Has;
    if text != "" {
      LineIsDropped(s, i + 1, text[1..]);
    }
  }

  lemma {:induction false} BlockIsDropped(s: string, i: nat, text: string)
    requires Has(s, i, text + "*/") && WellFormed(BlockComment(text))
    ensures Strip(s, i, OUTSIDE.(inBlock := true)) == Strip(s, i + |text| + 2, OUTSIDE)
    decreases |text|
  {
    hide Strip;
    var f := OUTSIDE.(inBlock := true);
    BlockTurn(s, i, text);
    TurnIsTaken(s, i, f, Look(s, i, f));
    hide Look, Has;
    if text != "" {
      forall k | 0 <= k < |text[1..]| ensures !StandsAt(text[1..], k, '*', '/') {
        assert !StandsAt(text, k + 1, '*', '/');
      }
      hide StandsAt;
      BlockIsDropped(s, i + 1, text[1..]);
    }
  }

  lemma BlockTurn(s: string, i: nat, text: string)
    requires Has(s, i, text + "*/") && !StandsAt(text, 0, '*', '/')
    ensures i < |s|
    ensures
      var f := OUTSIDE.(inBlock := true);
      Look(s, i, f) == if text == "" then Turn("", i + 2, OUTSIDE) else Turn("", i + 1, f)
    ensures text != "" ==> Has(s, i + 1, text[1..] + "*/")
  {
    var whole := text + "*/";
    CharsStand(s, i, whole);
    assert s[i + 0] == whole[0] && s[i + 1] == whole[1];
    if text != "" {
      assert whole == [text[0]] + (text[1..] + "*/");
      HasSplit(s, i, [text[0]], text[1..] + "*/");
    }
  }

  /** A line comment without a line break, or a block comment without its end, takes all that follows with it. */
  lemma {:induction false} OpenIsDropped(s: string, i: nat, f: Flags)
    requires i <= |s| && f != OUTSIDE && !f.inString
    requires f.inLine ==> forall k :: i <= k < |s| ==> s[k] != '\n'
    requires !f.inLine ==> forall k :: i <= k < |s| ==> !StandsAt(s, k, '*', '/')
    ensures Strip(s, i, f) == ""
    decreases |s| - i
  {
    if i < |s| {
      TurnIsTaken(s, i, f, Turn("", i + 1, f));
      OpenIsDropped(s, i + 1, f);
    }
  }

  lemma EndingIsDropped(s: string, i: nat, e: Ending)
    requires ProperEnding(e) && Has(s, i, ShowEnding(e)) && i + |ShowEnding(e)| == |s| && Clear(s, i)
    ensures Strip(s, i, OUTSIDE) == ""
  {
    hide Strip;
    var show := ShowEnding(e);
    CharsStand(s, i, show);
    if e != Complete {
      assert s[i + 0] == show[0] && s[i + 1] == show[1];
    }
    match e {
      case Complete => NothingLeft(s, i, OUTSIDE);
      case OpenLine(text) =>
        var f := OUTSIDE.(inLine := true);
        TurnIsTaken(s, i, OUTSIDE, Turn("", i + 2, f));
        forall k | i + 2 <= k < |s| ensures s[k] != '\n' {
          assert s[i + (k - i)] == show[k - i] == text[k - i - 2];
        }
        OpenIsDropped(s, i + 2, f);
      case OpenBlock(text) =>
        var f := OUTSIDE.(inBlock := true);
        TurnIsTaken(s, i, OUTSIDE, Turn("", i + 2, f));
        forall k | i + 2 <= k < |s| ensures !StandsAt(s, k, '*', '/') {
          assert s[i + (k - i)] == show[k - i] == text[k - i - 2];
          if k + 1 < |s| {
            assert s[i + (k + 1 - i)] == show[k + 1 - i] == text[k - i - 1];
          }
          assert !StandsAt(text, k - i - 2, '*', '/');
        }
        OpenIsDropped(s, i + 2, f);
    }
  }

  /** The opening mark is kept, and the body is read from its start. */
  lemma LiteralIsEntered(s: string, i: nat, body: string)
    requires Has(s, i, "\"" + body + "\"") && Clear(s, i)
    ensures Has(s, i + 1, body + "\"") && s[i] == '"' && i + |body| + 2 <= |s| && s[i + |body| + 1] == '"'
    ensures Strip(s, i, OUTSIDE) == "\"" + Strip(s, i + 1, FlagsAt(body, 0))
  {
    hide Strip;
    var whole := "\"" + body + "\"";
    CharsStand(s, i, whole);
    assert s[i + (|body| + 1)] == whole[|body| + 1];
    assert whole == "\"" + (body + "\"");
    HasSplit(s, i, "\"", body + "\"");
    TurnIsTaken(s, i, OUTSIDE, Turn("\"", i + 1, FlagsAt(body, 0)));
  }

  lemma LiteralIsStripped(s: string, i: nat, body: string)
    requires Has(s, i, "\"" + body + "\"") && Escaped(body) && !IsCut(body, 0) && Clear(s, i)
    ensures Strip(s, i, OUTSIDE) == "\"" + body + "\"" + Strip(s, i + |body| + 2, FlagsBehind(body))
    ensures Clear(s, i + |body| + 2)
  {
    hide Strip, FlagsBehind;
    LiteralIsEntered(s, i, body);
    BodyIsKept(s, i + 1, body, 0);
    assert body[0..] == body;
  }

  /** The text `shown` at `i` is reduced to `bare`, and what follows is read on its own. */
  predicate Stripped(s: string, i: nat, shown: string, bare: string) {
    Strip(s, i, OUTSIDE) == bare + Strip(s, i + |shown|, OUTSIDE) && Clear(s, i + |shown|)
  }

  lemma PlainIsStripped(s: string, i: nat, text: string)
    requires Has(s, i, text) && WellFormed(Plain(text)) && Clear(s, i)
    ensures Stripped(s, i, text, text)
  {
    hide Strip;
    PlainIsKept(s, i, text);
    if text != "" {
      HasAt(s, i, text, |text| - 1);
    }
  }

  lemma SurvivorIsStripped(s: string, i: nat, body: string)
    requires Has(s, i, "\"" + body + "\"") && Escaped(body) && Survives(body) && Clear(s, i)
    ensures Stripped(s, i, "\"" + body + "\"", "\"" + body + "\"")
  {
    assert FlagsBehind(body) == OUTSIDE;
    hide Strip, Has, Clear, Escaped, FlagsBehind;
    LiteralIsStripped(s, i, body);
  }

  lemma LineIsStripped(s: string, i: nat, text: string)
    requires Has(s, i, "//" + text + "\n") && WellFormed(LineComment(text)) && Clear(s, i)
    ensures Stripped(s, i, "//" + text + "\n", "\n")
  {
    hide Strip;
    CharsStand(s, i, "//" + text + "\n");
    assert "//" + text + "\n" == "//" + (text + "\n");
    HasSplit(s, i, "//", text + "\n");
    TurnIsTaken(s, i, OUTSIDE, Turn("", i + 2, OUTSIDE.(inLine := true)));
    LineIsDropped(s, i + 2, text);
    HasAt(s, i, "//" + text + "\n", |text| + 2);
  }

  lemma BlockIsStripped(s: string, i: nat, text: string)
    requires Has(s, i, "/*" + text + "*/") && WellFormed(BlockComment(text)) && Clear(s, i)
    ensures Stripped(s, i, "/*" + text + "*/", "")
  {
    hide Strip;
    CharsStand(s, i, "/*" + text + "*/");
    assert "/*" + text + "*/" == "/*" + (text + "*/");
    HasSplit(s, i, "/*", text + "*/");
    TurnIsTaken(s, i, OUTSIDE, Turn("", i + 2, OUTSIDE.(inBlock := true)));
    BlockIsDropped(s, i + 2, text);
    HasAt(s, i, "/*" + text + "*/", |text| + 3);
    assert "" + Strip(s, i, OUTSIDE) == Strip(s, i, OUTSIDE);
  }

  lemma PieceIsStripped(s: string, i: nat, p: Piece)
    requires Has(s, i, Show(p)) && WellFormed(p) && Clear(s, i)
    ensures Stripped(s, i, Show(p), Bare(p))
  {
    hide Stripped, Has, Clear, Escaped, Survives;
    match p {
      case Plain(text) => PlainIsStripped(s, i, text);
      case Literal(body) => SurvivorIsStripped(s, i, body);
      case LineComment(text) => LineIsStripped(s, i, text);
      case BlockComment(text) => BlockIsStripped(s, i, text);
    }
  }

  lemma {:induction false} PiecesAreStripped(s: string, i: nat, ps: seq<Piece>, e: Ending)
    requires Has(s, i, ShowAll(ps) + ShowEnding(e)) && i + |ShowAll(ps)| + |ShowEnding(e)| == |s| && Clear(s, i)
    requires (forall k :: 0 <= k < |ps| ==> WellFormed(ps[k])) && ProperEnding(e)
    ensures Strip(s, i, OUTSIDE) == BareAll(ps)
    decreases |ps|
  {
    hide Show, Bare, WellFormed, ShowEnding, ProperEnding, Strip;
    if ps == [] {
      assert ShowAll(ps) + ShowEnding(e) == ShowEnding(e);
      EndingIsDropped(s, i, e);
    } else {
      var show, rest := Show(ps[0]), ShowAll(ps[1..]);
      assert ShowAll(ps) + ShowEnding(e) == show + (rest + ShowEnding(e));
      assert BareAll(ps) == Bare(ps[0]) + BareAll(ps[1..]);
      HasSplit(s, i, show, rest + ShowEnding(e));
      PieceIsStripped(s, i, ps[0]);
      hide ShowAll, BareAll, Has, Clear;
      PiecesAreStripped(s, i + |show|, ps[1..], e);
    }
  }

  /** Wherever comments are put between tokens, white space and literals, whatever they contain, and be the last one
      ended or not, removing them gives back the text without them, line breaks kept and literals untouched. */
  lemma CommentsAreRemoved(ps: seq<Piece>, e: Ending)
    requires (forall k :: 0 <= k < |ps| ==> WellFormed(ps[k])) && ProperEnding(e)
    ensures Strip(ShowAll(ps) + ShowEnding(e), 0, OUTSIDE) == BareAll(ps)
  {
    var s := ShowAll(ps) + ShowEnding(e);
    assert s[0..|s|] == s;
    PiecesAreStripped(s, 0, ps, e);
  }

  // ---------- which literals survive ----------

  lemma {:induction false} BodyIsEscaped(body: string)
    requires IsBody(body)
    ensures Escaped(body)
    decreases |body|
  {
    if body != "" {
      var n := if body[0] == '\\' then 2 else 1;
      var rest := body[n..];
      BodyIsEscaped(rest);
      forall i | 0 <= i < |body| && body[i] == '"' ensures i > 0 && body[i - 1] == '\\' {
        if i >= n {
          assert rest[i - n] == '"';
          assert rest[i - n - 1] == body[i - 1];
        }
      }
      if rest != "" {
        assert rest[|rest| - 1] == body[|body| - 1];
        assert |rest| > 1 ==> rest[|rest| - 2] == body[|body| - 2];
      }
    }
  }

  /** A literal at the start of a text is kept whole, and what follows it is read as standing outside of it. */
  predicate IsRespected(body: string, rest: string) {
    var literal := "\"" + body + "\"";
    Strip(literal + rest, 0, OUTSIDE) == literal + Strip(literal + rest, |literal|, OUTSIDE)
  }

  /** Whatever follows, a JSON literal is respected if and only if its body survives. */
  lemma LiteralIsRespectedWhen(body: string)
    requires IsBody(body)
    ensures (forall rest :: IsRespected(body, rest)) <==> Survives(body)
  {
    BodyIsEscaped(body);
    if IsCut(body, 0) {
      CutIsNotRespected(body);
    } else if !Inside(body, |body|) {
      OddIsNotRespected(body);
    } else {
      forall rest ensures IsRespected(body, rest) {
        SurvivorIsRespected(body, rest);
      }
    }
  }

  lemma SurvivorIsRespected(body: string, rest: string)
    requires Escaped(body) && Survives(body)
    ensures IsRespected(body, rest)
  {
    hide Strip;
    var s := "\"" + body + "\"" + rest;
    assert s[0..|body| + 2] == "\"" + body + "\"";
    LiteralIsStripped(s, 0, body);
    assert FlagsBehind(body) == OUTSIDE;
  }

  /** What looks like a comment inside of the literal is dropped, even if nothing follows. */
  lemma CutIsNotRespected(body: string)
    requires Escaped(body) && IsCut(body, 0)
    ensures !IsRespected(body, "")
  {
    var literal := "\"" + body + "\"";
    assert literal + "" == literal && literal[0..|literal|] == literal;
    LiteralIsEntered(literal, 0, body);
    BodyIsCut(literal, 1, body, 0);
  }

  /** Behind a literal that is never left, a comment is not recognised. */
  lemma OddIsNotRespected(body: string)
    requires Escaped(body) && !IsCut(body, 0) && !Inside(body, |body|)
    ensures !IsRespected(body, "//")
  {
    var literal := "\"" + body + "\"";
    var s, n, inside := literal + "//", |literal|, OUTSIDE.(inString := true);
    assert s[0..n] == literal;
    hide Look;
    LiteralIsStripped(s, 0, body);
    assert FlagsBehind(body) == inside;
    hide Strip;
    SlashesBehind(s, n);
    assert literal + "//" != literal + "";
  }

  lemma SlashesBehind(s: string, n: nat)
    requires |s| == n + 2 && s[n] == s[n + 1] == '/'
    ensures Strip(s, n, OUTSIDE.(inString := true)) == "//" && Strip(s, n, OUTSIDE) == ""
  {
    var inside := OUTSIDE.(inString := true);
    assert Look(s, n, inside) == Turn("/", n + 1, inside) && Look(s, n + 1, inside) == Turn("/", n + 2, inside);
    assert Look(s, n, OUTSIDE) == Turn("", n + 2, OUTSIDE.(inLine := true));
    hide Look;
    assert Strip(s, n + 1, inside) == "/" + "";
    assert Strip(s, n, inside) == "/" + Strip(s, n + 1, inside);
    assert Strip(s, n, OUTSIDE) == "";
  }

  /** Without a quotation mark behind two backslashes, as in every literal without backslashes, nothing is misread. */
  lemma {:induction false} NothingMisread(body: string, n: nat)
    requires n <= |body| && forall k :: 0 <= k < n ==> !Misread(body, k)
    ensures Inside(body, n)
  {
    if n > 0 {
      NothingMisread(body, n - 1);
    }
  }

  lemma PlainLiteralSurvives(body: string)
    requires forall k :: 0 <= k < |body| ==> !Misread(body, k)
    ensures Survives(body)
  {
    forall n | 0 <= n <= |body| ensures Inside(body, n) {
      NothingMisread(body, n);
    }
  }

  /** The condition is needed: in the JSON literal of a backslash, a quotation mark and two slashes, the escaped mark
      counts as the end of the literal, and the slashes are dropped as a comment. */
  lemma EscapedQuoteIsMisread()
    ensures IsBody("\\\\\\\"//") && !Survives("\\\\\\\"//")
    ensures Strip("\"\\\\\\\"//\"", 0, OUTSIDE) == "\"\\\\\\\""
  {
    var s, body := "\"\\\\\\\"//\"", "\\\\\\\"//";
    assert |s| == 8 && s[4] == '"' && s[3] == '\\' && s[2] == '\\';
    var inside, inLine := OUTSIDE.(inString := true), OUTSIDE.(inLine := true);
    assert Look(s, 7, inLine) == Turn("", 8, inLine);
    assert Look(s, 5, OUTSIDE) == Turn("", 7, inLine);
    assert Look(s, 4, inside) == Turn("\"", 5, OUTSIDE);
    assert Look(s, 3, inside) == Turn("\\", 4, inside);
    assert Look(s, 2, inside) == Turn("\\", 3, inside);
    assert Look(s, 1, inside) == Turn("\\", 2, inside);
    assert Look(s, 0, OUTSIDE) == Turn("\"", 1, inside);
    hide Look;
    assert Strip(s, 7, inLine) == "";
    assert Strip(s, 5, OUTSIDE) == "";
    assert Strip(s, 4, inside) == "\"";
    assert Strip(s, 3, inside) == "\\" + "\"";
    assert Strip(s, 2, inside) == "\\\\" + "\"";
    assert Strip(s, 1, inside) == "\\\\\\" + "\"";
    hide Strip;
    assert body[2..][2..] == "//" && IsBody("//"[1..]);
    assert Misread(body, 3) && Inside(body, 3) && !Inside(body, 4) && OpensComment(body, 4);
  }

  /** Two marks that are misread cancel out. */
  lemma MisreadingsCancel()
    ensures IsBody("\\\\\\\"\\\\\\\"") && Survives("\\\\\\\"\\\\\\\"")
  {
    var body := "\\\\\\\"\\\\\\\"";
    assert body[2..][2..] == "\\\\\\\"" && body[2..][2..][2..] == "\\\"" && IsBody(body[2..][2..][2..]);
    assert Misread(body, 3) && Misread(body, 7) && |body| == 8;
    assert Inside(body, 3) && !Inside(body, 4) && !Inside(body, 5) && !Inside(body, 6) && !Inside(body, 7);
  }
}
