// Which texts the tokenizer of steam-shim/jsoncpp.cpp takes for which token.
module JsonLexemes {
  import opened Options
  import opened Chars
  import opened JsonNumber
  import opened JsonValue
  import opened JsonSyntax

  // ---- white space ----

  predicate AllBlank(s: string) { forall c <- s :: c in " \t\r\n" }

  // The white space of RFC 8259, section 2, and nothing else is skipped.
  lemma {:induction false} SpacesMean(blank: string, s: string)
    requires AllBlank(blank) && (s == "" || s[0] !in " \t\r\n")
    ensures SkipSpaces(blank + s) == s
    decreases |blank|
  {
    if blank == "" {
      assert blank + s == s;
    } else {
      assert (blank + s)[0] == blank[0] && (blank + s)[1..] == blank[1..] + s && blank[0] in blank;
      SpacesMean(blank[1..], s);
    }
  }

  lemma {:induction false} SpacesAre(s: string) returns (blank: string)
    ensures AllBlank(blank) && s == blank + SkipSpaces(s)
  {
    if s != "" && IsSpace(s[0]) {
      var more := SpacesAre(s[1..]);
      blank := [s[0]] + more;
    } else {
      blank := "";
    }
  }

  // ---- strings ----

  // Between the quotes: no bare quote, and no backslash without a character behind it.
  predicate IsBody(b: string) {
    b == "" || if b[0] == '\\' then |b| > 1 && IsBody(b[2..]) else b[0] != '"' && IsBody(b[1..])
  }

  lemma {:induction false} BodyEnds(b: string, rest: string)
    requires IsBody(b)
    ensures StringRest(b + ['"'] + rest) == Some(rest)
    decreases |b|
  {
    var s := b + ['"'] + rest;
    if b == "" {
      assert s[1..] == rest;
    } else if b[0] == '\\' {
      assert s[2..] == b[2..] + ['"'] + rest;
      BodyEnds(b[2..], rest);
    } else {
      assert s[1..] == b[1..] + ['"'] + rest;
      BodyEnds(b[1..], rest);
    }
  }

  lemma {:induction false} BodyBefore(s: string) returns (b: string)
    requires StringRest(s).Some?
    ensures IsBody(b) && s == b + ['"'] + StringRest(s).value
    decreases |s|
  {
    if s[0] == '"' {
      b := "";
    } else if s[0] != '\\' {
      var more := BodyBefore(s[1..]);
      b := [s[0]] + more;
      assert b[1..] == more;
    } else {
      var more := BodyBefore(s[2..]);
      b := s[..2] + more;
      assert b[2..] == more;
    }
  }

  // ---- numbers ----

  predicate StartsWith(s: string, chars: string) { s != "" && s[0] in chars }

  // A fraction: nothing, or a point and digits, which may be missing.
  predicate IsFraction(f: string) { f == "" || (f[0] == '.' && AllDigits(f[1..])) }

  // An exponent: nothing, or the letter, a sign or none, and digits, which may be missing.
  predicate IsExponent(e: string) {
    e == "" || (e[0] in "eE" && (AllDigits(e[1..]) || (|e| > 1 && e[1] in "+-" && AllDigits(e[2..]))))
  }

  predicate NoDigitFirst(s: string) { s == "" || !IsDigit(s[0]) }

  // Each part is as long as it can be.
  predicate IsNumber(first: char, digits: string, f: string, e: string, rest: string) {
    && (IsDigit(first) || first == '-') && AllDigits(digits) && IsFraction(f) && IsExponent(e)
    && NoDigitFirst(f + e + rest) && (f == "" ==> !StartsWith(e + rest, ".")) && (f != "" ==> NoDigitFirst(e + rest))
    && (e == "" ==> !StartsWith(rest, "eE")) && (e != "" ==> NoDigitFirst(rest))
    && (|e| == 1 ==> !StartsWith(rest, "+-"))
  }

  lemma {:induction false} DigitsEnd(digits: string, tail: string)
    requires AllDigits(digits) && NoDigitFirst(tail)
    ensures SkipDigits(digits + tail) == tail
    decreases |digits|
  {
    if digits == "" {
      assert digits + tail == tail;
    } else {
      assert (digits + tail)[1..] == digits[1..] + tail;
      DigitsEnd(digits[1..], tail);
    }
  }

  lemma {:induction false} DigitsBefore(s: string) returns (digits: string)
    ensures AllDigits(digits) && s == digits + SkipDigits(s) && NoDigitFirst(SkipDigits(s))
  {
    if s != "" && IsDigit(s[0]) {
      var more := DigitsBefore(s[1..]);
      digits := [s[0]] + more;
    } else {
      digits := "";
    }
  }

  lemma {:induction false} FractionEnds(f: string, tail: string)
    requires IsFraction(f) && (f == "" ==> !StartsWith(tail, ".")) && (f != "" ==> NoDigitFirst(tail))
    ensures FractionRest(f + tail) == tail
  {
    hide SkipDigits;
    if f == "" {
      assert f + tail == tail;
    } else {
      assert (f + tail)[1..] == f[1..] + tail;
      DigitsEnd(f[1..], tail);
    }
  }

  lemma {:induction false} FractionBefore(s: string) returns (f: string)
    ensures IsFraction(f) && s == f + FractionRest(s)
    ensures f == "" ==> !StartsWith(FractionRest(s), ".")
    ensures f != "" ==> NoDigitFirst(FractionRest(s))
  {
    hide SkipDigits;
    f := "";
    if s != "" && s[0] == '.' {
      var digits := DigitsBefore(s[1..]);
      f := "." + digits;
      assert f[1..] == digits;
    }
  }

  lemma {:induction false} ExponentEnds(e: string, tail: string)
    requires IsExponent(e) && (e == "" ==> !StartsWith(tail, "eE")) && (e != "" ==> NoDigitFirst(tail))
    requires |e| == 1 ==> !StartsWith(tail, "+-")
    ensures ExponentRest(e + tail) == tail
  {
    hide SkipDigits;
    var s := e + tail;
    if e == "" {
      assert s == tail;
    } else if |e| > 1 && e[1] in "+-" {
      assert s[2..] == e[2..] + tail && !IsDigit(e[1]);
      DigitsEnd(e[2..], tail);
    } else {
      assert s[1..] == e[1..] + tail;
      assert |s| > 1 ==> s[1] == if |e| > 1 then e[1] else tail[0];
      DigitsEnd(e[1..], tail);
    }
  }

  lemma {:induction false} ExponentBefore(s: string) returns (e: string)
    ensures IsExponent(e) && s == e + ExponentRest(s)
    ensures e == "" ==> !StartsWith(ExponentRest(s), "eE")
    ensures e != "" ==> NoDigitFirst(ExponentRest(s))
    ensures |e| == 1 ==> !StartsWith(ExponentRest(s), "+-")
  {
    hide SkipDigits;
    e := "";
    if s != "" && (s[0] == 'e' || s[0] == 'E') {
      if |s| > 1 && (s[1] == '+' || s[1] == '-') {
        var digits := DigitsBefore(s[2..]);
        e := s[..2] + digits;
        assert e[2..] == digits;
      } else {
        var digits := DigitsBefore(s[1..]);
        e := s[..1] + digits;
        assert e[1..] == digits;
        assert digits == "" ==> s[1..] == ExponentRest(s);
      }
    }
  }

  lemma {:induction false} NumberEnds(first: char, digits: string, f: string, e: string, rest: string)
    requires IsNumber(first, digits, f, e, rest)
    ensures NumberRest(digits + f + e + rest) == rest
  {
    hide SkipDigits, FractionRest, ExponentRest;
    assert digits + f + e + rest == digits + (f + e + rest) && f + e + rest == f + (e + rest);
    DigitsEnd(digits, f + e + rest);
    FractionEnds(f, e + rest);
    ExponentEnds(e, rest);
  }

  lemma {:induction false} NumberBefore(first: char, s: string) returns (digits: string, f: string, e: string)
    requires IsDigit(first) || first == '-'
    ensures IsNumber(first, digits, f, e, NumberRest(s)) && s == digits + f + e + NumberRest(s)
  {
    hide SkipDigits, FractionRest, ExponentRest, IsFraction, IsExponent;
    digits := DigitsBefore(s);
    var u := SkipDigits(s);
    f := FractionBefore(u);
    var v := FractionRest(u);
    e := ExponentBefore(v);
    assert f + e + ExponentRest(v) == f + (e + ExponentRest(v)) == u;
    assert digits + f + e + ExponentRest(v) == digits + (f + e + ExponentRest(v));
  }

  // A number with a fraction or an exponent never takes the integer path.
  lemma {:induction false} FractionsAreDoubles(first: char, digits: string, f: string, e: string, rest: string,
        isDouble: string -> bool)
    requires IsNumber(first, digits, f, e, rest) && (f != "" || e != "")
    ensures var text := [first] + (digits + f + e);
            DecodeNumber(text, isDouble) == if isDouble(text) then Some(Real(text)) else None
  {
    hide NatOf;
    var text := [first] + (digits + f + e);
    var k := 1 + |digits| + if f != "" then 0 else |f|;
    assert text[k] == if f != "" then f[0] else e[0];
    assert Magnitude(text)[if Negative(text) then k - 1 else k] == text[k];
  }

  // ---- comments ----

  // No closing mark inside.
  predicate IsBlock(b: string) { |b| < 2 || (!(b[0] == '*' && b[1] == '/') && IsBlock(b[1..])) }

  lemma {:induction false} BlockEnds(b: string, rest: string)
    requires IsBlock(b)
    ensures BlockCommentRest(b + "*/" + rest) == Some(rest)
    decreases |b|
  {
    var s := b + "*/" + rest;
    if b == "" {
      assert s[2..] == rest;
    } else {
      assert s[1..] == b[1..] + "*/" + rest;
      BlockEnds(b[1..], rest);
    }
  }

  lemma {:induction false} BlockBefore(s: string) returns (b: string)
    requires BlockCommentRest(s).Some?
    ensures IsBlock(b) && s == b + "*/" + BlockCommentRest(s).value
    decreases |s|
  {
    if s[0] == '*' && |s| > 1 && s[1] == '/' {
      b := "";
      assert s == "*/" + s[2..];
    } else {
      var more := BlockBefore(s[1..]);
      b := [s[0]] + more;
      assert s == b + "*/" + BlockCommentRest(s).value;
      assert |b| > 1 ==> b[1] == s[1];
      assert b[1..] == more;
    }
  }

  // The ends of a line: either kind, both together, or the end of the text.
  predicate EndsLine(eol: string, rest: string) {
    || eol == "\n" || eol == "\r\n" || (eol == "\r" && !StartsWith(rest, "\n")) || (eol == "" && rest == "")
  }

  predicate IsLine(b: string) { '\n' !in b && '\r' !in b }

  lemma {:induction false} LineEnds(b: string, eol: string, rest: string)
    requires IsLine(b) && EndsLine(eol, rest)
    ensures LineCommentRest(b + eol + rest) == rest
    decreases |b|
  {
    var s := b + eol + rest;
    if b == "" {
      assert s == eol + rest;
      if eol == "\r\n" {
        assert s[2..] == rest;
      } else if eol != "" {
        assert s[1..] == rest;
      }
    } else {
      assert s[1..] == b[1..] + eol + rest && s[0] == b[0] && b[0] in b;
      LineEnds(b[1..], eol, rest);
    }
  }

  lemma {:induction false} LineBefore(s: string) returns (b: string, eol: string)
    ensures IsLine(b) && EndsLine(eol, LineCommentRest(s)) && s == b + eol + LineCommentRest(s)
  {
    if s == "" {
      b, eol := "", "";
    } else if s[0] == '\n' {
      b, eol := "", "\n";
    } else if s[0] == '\r' {
      b, eol := "", if |s| > 1 && s[1] == '\n' then "\r\n" else "\r";
    } else {
      b, eol := LineBefore(s[1..]);
      assert s == [s[0]] + b + eol + LineCommentRest(s);
      b := [s[0]] + b;
    }
  }

  // ---- tokens ----

  predicate IsNumberText(text: string, digits: string, f: string, e: string, rest: string) {
    text != "" && IsNumber(text[0], digits, f, e, rest) && text == [text[0]] + (digits + f + e)
  }

  predicate IsBlockComment(s: string, b: string, rest: string) { IsBlock(b) && s == "/*" + (b + "*/" + rest) }

  predicate IsLineComment(s: string, b: string, eol: string, rest: string) {
    IsLine(b) && EndsLine(eol, rest) && s == "//" + (b + eol + rest)
  }

  // The text of the tokens that are always spelled alike.
  function Fixed(token: Token): Option<string> {
    match token
    case ObjectBegin => Some("{")
    case ObjectEnd => Some("}")
    case ArrayBegin => Some("[")
    case ArrayEnd => Some("]")
    case ArraySeparator => Some(",")
    case MemberSeparator => Some(":")
    case True => Some("true")
    case False => Some("false")
    case NullWord => Some("null")
    case _ => None
  }

  // A text that does not begin with white space begins with this token and goes on with the rest.
  ghost predicate BeginsWith(s: string, token: Token, rest: string) {
    match token
    case StringToken(text) => exists b :: IsBody(b) && text == "\"" + b + "\"" && s == text + rest
    case NumberToken(text) => s == text + rest && exists digits, f, e :: IsNumberText(text, digits, f, e, rest)
    case Comment => (exists b :: IsBlockComment(s, b, rest)) || (exists b, eol :: IsLineComment(s, b, eol, rest))
    case EndOfStream => (s == "" && rest == "") || s == "\0" + rest
    case Error => false
    case _ => s == Fixed(token).value + rest
  }

  lemma {:induction false} StringAt(s: string, b: string, rest: string)
    requires IsBody(b) && s == "\"" + b + "\"" + rest
    ensures TokenAt(s) == Lexed(StringToken("\"" + b + "\""), rest)
  {
    hide StringRest;
    BodyEnds(b, rest);
    assert s[1..] == b + ['"'] + rest && s[..|s| - |rest|] == "\"" + b + "\"";
  }

  lemma {:induction false} NumberAt(s: string, text: string, digits: string, f: string, e: string, rest: string)
    requires IsNumberText(text, digits, f, e, rest) && s == text + rest
    ensures TokenAt(s) == Lexed(NumberToken(text), rest)
  {
    hide NumberRest;
    NumberEnds(text[0], digits, f, e, rest);
    assert s[1..] == digits + f + e + rest && s[..|s| - |rest|] == text && s[0] == text[0];
  }

  lemma {:induction false} CommentAt(s: string, b: string, eol: string, rest: string)
    requires IsBlockComment(s, b, rest) || IsLineComment(s, b, eol, rest)
    ensures TokenAt(s) == Lexed(Comment, rest)
  {
    hide BlockCommentRest, LineCommentRest;
    assert s[1..][1..] == s[2..];
    if IsBlockComment(s, b, rest) {
      assert s[2..] == b + "*/" + rest;
      BlockEnds(b, rest);
    } else {
      assert s[2..] == b + eol + rest;
      LineEnds(b, eol, rest);
    }
  }

  lemma {:induction false} FixedAt(s: string, token: Token, rest: string)
    requires Fixed(token).Some? && s == Fixed(token).value + rest
    ensures TokenAt(s) == Lexed(token, rest)
  {
    assert s[1..] == Fixed(token).value[1..] + rest;
  }

  // What begins a text is read as this token.
  lemma {:induction false} BeginningIsRead(s: string, token: Token, rest: string)
    requires BeginsWith(s, token, rest)
    ensures TokenAt(s) == Lexed(token, rest)
  {
    hide TokenAt, IsBody, IsNumberText, IsBlockComment, IsLineComment;
    match token
    case StringToken(text) =>
      var b :| IsBody(b) && text == "\"" + b + "\"" && s == text + rest;
      StringAt(s, b, rest);
    case NumberToken(text) =>
      var digits, f, e :| IsNumberText(text, digits, f, e, rest);
      NumberAt(s, text, digits, f, e, rest);
    case Comment =>
      if b :| IsBlockComment(s, b, rest) {
        CommentAt(s, b, "", rest);
      } else {
        var b, eol :| IsLineComment(s, b, eol, rest);
        CommentAt(s, b, eol, rest);
      }
    case EndOfStream => EndAt(s, rest);
    case _ => FixedAt(s, token, rest);
  }

  lemma {:induction false} EndAt(s: string, rest: string)
    requires (s == "" && rest == "") || s == "\0" + rest
    ensures TokenAt(s) == Lexed(EndOfStream, rest)
  {
    assert s != "" ==> s[1..] == rest;
  }

  // And what is read as a token that is no error began like it.
  lemma {:induction false} ReadIsBeginning(s: string)
    requires !TokenAt(s).token.Error?
    ensures BeginsWith(s, TokenAt(s).token, TokenAt(s).rest)
  {
    var token, rest := TokenAt(s).token, TokenAt(s).rest;
    if s != "" {
      var c := s[0];
      assert s == [c] + s[1..];
      if c == '"' {
        StringIsBeginning(s);
      } else if c == '/' {
        CommentIsBeginning(s);
      } else if IsDigit(c) || c == '-' {
        NumberIsBeginning(s);
      } else if c == 't' || c == 'f' || c == 'n' {
        WordIsBeginning(s);
      }
    }
  }

  lemma {:induction false} StringIsBeginning(s: string)
    requires s != "" && s[0] == '"' && !TokenAt(s).token.Error?
    ensures BeginsWith(s, TokenAt(s).token, TokenAt(s).rest) && TokenAt(s).token.StringToken?
  {
    hide StringRest, IsBody;
    var b := BodyBefore(s[1..]);
    var rest := StringRest(s[1..]).value;
    assert s == "\"" + b + "\"" + rest;
    assert s[..|s| - |rest|] == "\"" + b + "\"";
  }

  lemma {:induction false} NumberIsBeginning(s: string)
    requires s != "" && (IsDigit(s[0]) || s[0] == '-')
    ensures BeginsWith(s, TokenAt(s).token, TokenAt(s).rest) && TokenAt(s).token.NumberToken?
  {
    hide NumberRest, IsNumber;
    var digits, f, e := NumberBefore(s[0], s[1..]);
    var rest := NumberRest(s[1..]);
    var text := s[..|s| - |rest|];
    assert s == [s[0]] + (digits + f + e) + rest;
    assert text == [s[0]] + (digits + f + e) && s == text + rest;
    assert IsNumberText(text, digits, f, e, rest);
  }

  lemma {:induction false} CommentIsBeginning(s: string)
    requires s != "" && s[0] == '/' && !TokenAt(s).token.Error?
    ensures BeginsWith(s, TokenAt(s).token, TokenAt(s).rest) && TokenAt(s).token.Comment?
  {
    hide BlockCommentRest, LineCommentRest, IsBlock;
    var t := s[1..];
    assert t[1..] == s[2..];
    if t[0] == '*' {
      var b := BlockBefore(s[2..]);
      assert s == "/*" + s[2..];
      assert IsBlockComment(s, b, TokenAt(s).rest);
    } else {
      var b, eol := LineBefore(s[2..]);
      assert s == "//" + s[2..];
      assert IsLineComment(s, b, eol, TokenAt(s).rest);
    }
  }

  lemma {:induction false} WordIsBeginning(s: string)
    requires s != "" && (s[0] == 't' || s[0] == 'f' || s[0] == 'n') && !TokenAt(s).token.Error?
    ensures BeginsWith(s, TokenAt(s).token, TokenAt(s).rest)
  {
    var t := s[1..];
    assert "rue" <= t ==> t == "rue" + t[3..] && "t" + t == "true" + t[3..];
    assert "alse" <= t ==> t == "alse" + t[4..] && "f" + t == "false" + t[4..];
    assert "ull" <= t ==> t == "ull" + t[3..] && "n" + t == "null" + t[3..];
    assert s == [s[0]] + t;
  }

  // The tokenizer, for every text and every token that is no error: past the white space the text
  // begins with the token and goes on with the rest.
  lemma {:induction false} TokensMean(s: string, token: Token, rest: string)
    requires !token.Error?
    ensures ReadToken(s) == Lexed(token, rest) <==> BeginsWith(SkipSpaces(s), token, rest)
  {
    hide TokenAt, BeginsWith;
    var t := SkipSpaces(s);
    if ReadToken(s) == Lexed(token, rest) {
      ReadIsBeginning(t);
    }
    if BeginsWith(t, token, rest) {
      BeginningIsRead(t, token, rest);
    }
  }
}
