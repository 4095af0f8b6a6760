// JSON string literals: valueToQuotedStringN, Reader::decodeString and the unicode escapes.
module JsonString {
  import opened Options
  import opened Pieces

  // ---- quoting ----

  // In [0, 31]: isControlCharacter or NUL. Bytes from 0x80 up are negative as a signed char.
  predicate IsControl(c: char) { c <= '\U{1F}' }

  predicate NeedsEscape(c: char) { IsControl(c) || c == '"' || c == '\\' }

  function HexDigit(d: nat): char
    requires d < 16
  {
    if d < 10 then ('0' as nat + d) as char else ('A' as nat + (d - 10)) as char
  }

  function Hex4(n: nat): string
    requires n < 0x10000
  {
    [HexDigit(n / 16 / 16 / 16), HexDigit(n / 16 / 16 % 16), HexDigit(n / 16 % 16), HexDigit(n % 16)]
  }

  function Escape(c: char): (e: string)
    ensures e != ""
  {
    if c == '"' then "\\\""
    else if c == '\\' then "\\\\"
    else if c == '\U{8}' then "\\b"
    else if c == '\U{C}' then "\\f"
    else if c == '\n' then "\\n"
    else if c == '\r' then "\\r"
    else if c == '\t' then "\\t"
    else if IsControl(c) then "\\u" + Hex4(c as nat)
    else [c]
  }

  function EscapeAll(s: string): string {
    if s == "" then "" else Escape(s[0]) + EscapeAll(s[1..])
  }

  function Quoted(s: string): string { "\"" + EscapeAll(s) + "\"" }

  lemma {:induction false} EscapeAllAppend(a: string, c: char)
    ensures EscapeAll(a + [c]) == EscapeAll(a) + Escape(c)
  {
    if a == "" {
      assert a + [c] == [c];
    } else {
      EscapeAllAppend(a[1..], c);
      assert (a + [c])[1..] == a[1..] + [c];
    }
  }

  lemma {:induction false} PlainTextIsItsOwnEscape(s: string)
    requires forall c :: c in s ==> !NeedsEscape(c)
    ensures EscapeAll(s) == s
  {
    if s != "" {
      PlainTextIsItsOwnEscape(s[1..]);
      assert s[0] in s && [s[0]] + s[1..] == s;
    }
  }

  // The strnpbrk and containsControlCharacter0 scans.
  method NothingToEscape(value: string) returns (plain: bool)
    ensures plain <==> forall c :: c in value ==> !NeedsEscape(c)
  {
    for i := 0 to |value|
      invariant forall k :: 0 <= k < i ==> !NeedsEscape(value[k])
    {
      if NeedsEscape(value[i]) {
        return false;
      }
    }
    return true;
  }

  // valueToQuotedStringN: copied as it stands when nothing has to be escaped, otherwise
  // escaped one byte at a time. Both paths quote the text.
  method ValueToQuotedString(value: string) returns (result: string)
    ensures result == Quoted(value)
  {
    var plain := NothingToEscape(value);
    if plain {
      PlainTextIsItsOwnEscape(value);
      return "\"" + value + "\"";
    }
    var escaped := "";
    for i := 0 to |value|
      invariant escaped == EscapeAll(value[..i])
    {
      EscapeAllAppend(value[..i], value[i]);
      assert value[..i + 1] == value[..i] + [value[i]];
      escaped := escaped + Escape(value[i]);
    }
    assert value[..|value|] == value;
    result := "\"" + escaped + "\"";
  }

  // valueToQuotedString on c_str(): the text ends at the first NUL.
  function UpToNul(s: string): (r: string)
    ensures r <= s && '\0' !in r && (|r| < |s| ==> s[|r|] == '\0')
    ensures r == s <==> '\0' !in s
  {
    FirstPiece('\0', s)
  }

  // ---- unquoting ----

  function HexValue(c: char): Option<nat> {
    if '0' <= c <= '9' then Some(c as nat - '0' as nat)
    else if 'a' <= c <= 'f' then Some(c as nat - 'a' as nat + 10)
    else if 'A' <= c <= 'F' then Some(c as nat - 'A' as nat + 10)
    else None
  }

  // decodeUnicodeEscapeSequence: four hexadecimal digits.
  function Unicode4(s: string): (r: Option<nat>)
    ensures r.Some? ==> |s| >= 4 && r.value < 0x10000
  {
    if |s| < 4 then None
    else
      match (HexValue(s[0]), HexValue(s[1]), HexValue(s[2]), HexValue(s[3]))
      case (Some(a), Some(b), Some(c), Some(d)) =>
        if a < 16 && b < 16 && c < 16 && d < 16 then Some(((a * 16 + b) * 16 + c) * 16 + d) else None
      case _ => None
  }

  datatype CodePoint = CodePoint(value: nat, rest: string)

  // decodeUnicodeCodePoint: a high surrogate must be followed by another escape, which is
  // taken as its low half without a range check.
  function UnicodeCodePoint(s: string): (r: Option<CodePoint>)
    ensures r.Some? ==> |r.value.rest| < |s| && r.value.value <= 0x10FFFF
  {
    match Unicode4(s)
    case None => None
    case Some(u) =>
      var rest := s[4..];
      if !(0xD800 <= u <= 0xDBFF) then Some(CodePoint(u, rest))
      else if |rest| < 6 || rest[0] != '\\' || rest[1] != 'u' then None
      else
        match Unicode4(rest[2..])
        case None => None
        case Some(low) => Some(CodePoint(0x10000 + (u - 0xD800) * 0x400 + low % 0x400, rest[6..]))
  }

  // codePointToUTF8
  function Utf8(cp: nat): string
    requires cp <= 0x10FFFF
  {
    if cp <= 0x7F then [cp as char]
    else if cp <= 0x7FF then [(0xC0 + cp / 0x40) as char, (0x80 + cp % 0x40) as char]
    else if cp <= 0xFFFF then
      [(0xE0 + cp / 0x1000) as char, (0x80 + cp / 0x40 % 0x40) as char, (0x80 + cp % 0x40) as char]
    else
      [(0xF0 + cp / 0x40000) as char, (0x80 + cp / 0x1000 % 0x40) as char,
       (0x80 + cp / 0x40 % 0x40) as char, (0x80 + cp % 0x40) as char]
  }

  function SimpleEscape(c: char): Option<char> {
    match c
    case '"' => Some('"')
    case '/' => Some('/')
    case '\\' => Some('\\')
    case 'b' => Some('\U{8}')
    case 'f' => Some('\U{C}')
    case 'n' => Some('\n')
    case 'r' => Some('\r')
    case 't' => Some('\t')
    case _ => None
  }

  // decodeString on the text between the quotes.
  function Unescape(s: string): Option<string> {
    if s == "" || s[0] == '"' then Some("")
    else if s[0] != '\\' then Prepend([s[0]], Unescape(s[1..]))
    else if |s| == 1 then None
    else if s[1] == 'u' then
      match UnicodeCodePoint(s[2..])
      case None => None
      case Some(cp) => Prepend(Utf8(cp.value), Unescape(cp.rest))
    else
      match SimpleEscape(s[1])
      case None => None
      case Some(c) => Prepend([c], Unescape(s[2..]))
  }

  // decodeString: the loop over the body of a string token.
  method DecodeString(body: string) returns (decoded: Option<string>)
    ensures decoded == Unescape(body)
  {
    var rest, text := body, "";
    PrependNothing(Unescape(body));
    while rest != ""
      invariant Unescape(body) == Prepend(text, Unescape(rest))
      decreases |rest|
    {
      var c := rest[0];
      if c == '"' {
        break;
      } else if c != '\\' {
        PrependTwice(text, [c], Unescape(rest[1..]));
        text, rest := text + [c], rest[1..];
      } else {
        if |rest| == 1 {
          return None;
        }
        var escape := rest[1];
        if escape == 'u' {
          var cp := UnicodeCodePoint(rest[2..]);
          if cp.None? {
            return None;
          }
          PrependTwice(text, Utf8(cp.value.value), Unescape(cp.value.rest));
          text, rest := text + Utf8(cp.value.value), cp.value.rest;
        } else {
          var simple := SimpleEscape(escape);
          if simple.None? {
            return None;
          }
          PrependTwice(text, [simple.value], Unescape(rest[2..]));
          text, rest := text + [simple.value], rest[2..];
        }
      }
    }
    assert text + "" == text;
    return Some(text);
  }

  lemma {:induction false} HexDigitReads(d: nat)
    requires d < 16
    ensures HexValue(HexDigit(d)) == Some(d)
  {
  }

  lemma {:induction false} Hex4Reads(n: nat, rest: string)
    requires n < 0x10000
    ensures Unicode4(Hex4(n) + rest) == Some(n)
  {
    var a, b, c, d := n / 16 / 16 / 16, n / 16 / 16 % 16, n / 16 % 16, n % 16;
    HexDigitReads(a);
    HexDigitReads(b);
    HexDigitReads(c);
    HexDigitReads(d);
    var s := Hex4(n) + rest;
    assert s[0] == HexDigit(a) && s[1] == HexDigit(b) && s[2] == HexDigit(c) && s[3] == HexDigit(d);
    assert ((a * 16 + b) * 16 + c) * 16 + d == n;
  }

  lemma {:induction false} UnescapeOne(c: char, rest: string)
    ensures Unescape(Escape(c) + rest) == Prepend([c], Unescape(rest))
  {
    var s := Escape(c) + rest;
    if !NeedsEscape(c) {
      assert s[1..] == rest;
    } else if SimpleEscape(s[1]).Some? {
      assert s[2..] == rest;
    } else {
      var hex := Hex4(c as nat);
      Hex4Reads(c as nat, rest);
      assert s[0] == '\\' && s[1] == 'u' && s[2..] == hex + rest && (hex + rest)[4..] == rest;
      assert UnicodeCodePoint(hex + rest) == Some(CodePoint(c as nat, rest));
      assert Utf8(c as nat) == [c];
    }
  }

  // Unquoting inverts quoting for every string, NUL and other control characters included.
  lemma {:induction false} UnescapeInvertsEscape(s: string)
    ensures Unescape(EscapeAll(s)) == Some(s)
  {
    if s != "" {
      UnescapeInvertsEscape(s[1..]);
      UnescapeOne(s[0], EscapeAll(s[1..]));
      assert [s[0]] + s[1..] == s;
    }
  }
}
