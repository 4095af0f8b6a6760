// What a string body means, escape by escape: the code points of RFC 8259, section 7, as the bytes
// of their UTF-8 form (RFC 3629, section 3).
module JsonEscapes {
  import opened Options
  import opened JsonString
  import opened JsonSyntax
  import JsonLexemes

  // ---- UTF-8 ----

  // The six bits of a continuation byte.
  function SixBits(c: char): Option<nat> {
    if 0x80 <= c as nat < 0xC0 then Some(c as nat - 0x80) else None
  }

  function Continued(lead: nat, s: string): Option<nat>
    decreases |s|
  {
    if s == "" then Some(lead)
    else
      match SixBits(s[0])
      case None => None
      case Some(bits) => Continued(0x40 * lead + bits, s[1..])
  }

  // The code point a whole sequence stands for; its lead byte says how long it is.
  function DecodeUtf8(s: string): Option<nat> {
    if s == "" then None
    else
      var lead := s[0] as nat;
      if lead < 0x80 && |s| == 1 then Some(lead)
      else if 0xC0 <= lead < 0xE0 && |s| == 2 then Continued(lead - 0xC0, s[1..])
      else if 0xE0 <= lead < 0xF0 && |s| == 3 then Continued(lead - 0xE0, s[1..])
      else if 0xF0 <= lead < 0xF8 && |s| == 4 then Continued(lead - 0xF0, s[1..])
      else None
  }

  // The shortest sequence there is for a code point.
  function Utf8Length(cp: nat): nat {
    if cp < 0x80 then 1 else if cp < 0x800 then 2 else if cp < 0x10000 then 3 else 4
  }

  predicate IsByte(c: char) { c as nat < 0x100 }

  lemma {:induction false} SixBitsOf(n: nat)
    requires n < 0x40
    ensures SixBits((0x80 + n) as char) == Some(n)
  {}

  lemma {:induction false} Continuations(lead: nat, a: nat, b: nat, c: nat)
    requires a < 0x40 && b < 0x40 && c < 0x40
    ensures Continued(lead, [(0x80 + a) as char]) == Some(0x40 * lead + a)
    ensures Continued(lead, [(0x80 + a) as char, (0x80 + b) as char]) == Some(0x40 * (0x40 * lead + a) + b)
    ensures Continued(lead, [(0x80 + a) as char, (0x80 + b) as char, (0x80 + c) as char])
         == Some(0x40 * (0x40 * (0x40 * lead + a) + b) + c)
  {
    hide SixBits;
    SixBitsOf(a);
    SixBitsOf(b);
    SixBitsOf(c);
    var x, y, z := (0x80 + a) as char, (0x80 + b) as char, (0x80 + c) as char;
    assert [x][1..] == [] && [x, y][1..] == [y] && [y][1..] == [] && [x, y, z][1..] == [y, z];
    assert [y, z][1..] == [z] && [z][1..] == [];
    assert Continued(0x40 * lead + a, [y]) == Some(0x40 * (0x40 * lead + a) + b);
    assert Continued(0x40 * (0x40 * lead + a) + b, [z]) == Some(0x40 * (0x40 * (0x40 * lead + a) + b) + c);
  }

  lemma {:induction false} SixBitParts(n: nat)
    ensures n == 0x40 * (n / 0x40) + n % 0x40 && n / 0x40 / 0x40 == n / 0x1000 && n / 0x1000 / 0x40 == n / 0x40000
    ensures n % 0x40 < 0x40
  {}

  lemma {:induction false} ShortForm(cp: nat)
    requires 0x80 <= cp < 0x800
    ensures DecodeUtf8([(0xC0 + cp / 0x40) as char, (0x80 + cp % 0x40) as char]) == Some(cp)
  {
    hide Continued;
    SixBitParts(cp);
    Continuations(cp / 0x40, cp % 0x40, 0, 0);
    var s := [(0xC0 + cp / 0x40) as char, (0x80 + cp % 0x40) as char];
    assert s[1..] == [(0x80 + cp % 0x40) as char];
  }

  lemma {:induction false} MiddleForm(cp: nat)
    requires 0x800 <= cp < 0x10000
    ensures DecodeUtf8([(0xE0 + cp / 0x1000) as char, (0x80 + cp / 0x40 % 0x40) as char, (0x80 + cp % 0x40) as char])
         == Some(cp)
  {
    hide Continued;
    SixBitParts(cp);
    SixBitParts(cp / 0x40);
    var b, c := cp / 0x40 % 0x40, cp % 0x40;
    Continuations(cp / 0x1000, b, c, 0);
    var s := [(0xE0 + cp / 0x1000) as char, (0x80 + b) as char, (0x80 + c) as char];
    assert s[1..] == [(0x80 + b) as char, (0x80 + c) as char];
  }

  lemma {:induction false} LongForm(cp: nat)
    requires 0x10000 <= cp <= 0x10FFFF
    ensures DecodeUtf8([(0xF0 + cp / 0x40000) as char, (0x80 + cp / 0x1000 % 0x40) as char,
                        (0x80 + cp / 0x40 % 0x40) as char, (0x80 + cp % 0x40) as char]) == Some(cp)
  {
    hide Continued;
    SixBitParts(cp);
    SixBitParts(cp / 0x40);
    SixBitParts(cp / 0x1000);
    var a, b, c := cp / 0x1000 % 0x40, cp / 0x40 % 0x40, cp % 0x40;
    Continuations(cp / 0x40000, a, b, c);
    var s := [(0xF0 + cp / 0x40000) as char, (0x80 + a) as char, (0x80 + b) as char, (0x80 + c) as char];
    assert s[1..] == [(0x80 + a) as char, (0x80 + b) as char, (0x80 + c) as char];
  }

  // What codePointToUTF8 writes decodes to the code point, and nothing shorter would.
  lemma {:induction false} Utf8Decodes(cp: nat)
    requires cp <= 0x10FFFF
    ensures DecodeUtf8(Utf8(cp)) == Some(cp) && |Utf8(cp)| == Utf8Length(cp) && forall c <- Utf8(cp) :: IsByte(c)
  {
    if cp <= 0x7F {
    } else {
      hide DecodeUtf8;
      SixBitParts(cp);
      SixBitParts(cp / 0x40);
      if cp <= 0x7FF {
        ShortForm(cp);
      } else if cp <= 0xFFFF {
        MiddleForm(cp);
      } else {
        SixBitParts(cp / 0x1000);
        LongForm(cp);
      }
    }
  }

  // ---- hexadecimal ----

  // Digits of either case.
  predicate IsHexDigitOf(c: char, d: nat) {
    d < 16 && (c == "0123456789abcdef"[d] || c == "0123456789ABCDEF"[d])
  }

  lemma {:induction false} HexValueMeans(c: char, d: nat)
    ensures HexValue(c) == Some(d) <==> IsHexDigitOf(c, d)
  {
    if d < 16 {
      assert "0123456789abcdef"[d] == if d < 10 then ('0' as nat + d) as char else ('a' as nat + (d - 10)) as char;
      assert "0123456789ABCDEF"[d] == if d < 10 then ('0' as nat + d) as char else ('A' as nat + (d - 10)) as char;
    }
  }

  predicate SpellsHex(h: string, n: nat) {
    && |h| == 4 && n < 0x10000
    && IsHexDigitOf(h[0], n / 0x1000) && IsHexDigitOf(h[1], n / 0x100 % 0x10)
    && IsHexDigitOf(h[2], n / 0x10 % 0x10) && IsHexDigitOf(h[3], n % 0x10)
  }

  lemma {:induction false} Unicode4Means(s: string, n: nat)
    ensures Unicode4(s) == Some(n) <==> |s| >= 4 && SpellsHex(s[..4], n)
  {
    hide HexValue, IsHexDigitOf;
    if |s| >= 4 {
      forall i, d: nat | 0 <= i < 4
        ensures HexValue(s[i]) == Some(d) <==> IsHexDigitOf(s[i], d)
      {
        HexValueMeans(s[i], d);
      }
      forall d, c | IsHexDigitOf(c, d) ensures d < 16 {
        HexDigitIsSmall(c, d);
      }
      if Unicode4(s) == Some(n) {
        var a, b, c, d := HexValue(s[0]).value, HexValue(s[1]).value, HexValue(s[2]).value, HexValue(s[3]).value;
        HexParts(a, b, c, d);
      } else if SpellsHex(s[..4], n) {
        assert HexValue(s[0]) == Some(n / 0x1000) && HexValue(s[1]) == Some(n / 0x100 % 0x10);
        assert HexValue(s[2]) == Some(n / 0x10 % 0x10) && HexValue(s[3]) == Some(n % 0x10);
        HexWhole(n);
      }
    }
  }

  lemma {:induction false} HexDigitIsSmall(c: char, d: nat)
    requires IsHexDigitOf(c, d)
    ensures d < 16
  {}

  lemma {:induction false} HexParts(a: nat, b: nat, c: nat, d: nat)
    requires a < 16 && b < 16 && c < 16 && d < 16
    ensures var n := ((a * 16 + b) * 16 + c) * 16 + d;
            n / 0x1000 == a && n / 0x100 % 0x10 == b && n / 0x10 % 0x10 == c && n % 0x10 == d && n < 0x10000
  {}

  lemma {:induction false} HexWhole(n: nat)
    ensures ((n / 0x1000 * 16 + n / 0x100 % 0x10) * 16 + n / 0x10 % 0x10) * 16 + n % 0x10 == n
  {
    var x, y, z := n / 0x10, n / 0x100, n / 0x1000;
    assert y == x / 0x10 && z == y / 0x10;
    assert n == 0x10 * x + n % 0x10 && x == 0x10 * y + x % 0x10 && y == 0x10 * z + y % 0x10;
  }

  // ---- escapes ----

  // One character of a body as it may be spelled.
  datatype Item =
    | Plain(c: char)
    | Short(letter: char, c: char)
    | Code(hex: string, cp: nat)
    | Pair(high: string, low: string, second: nat, cp: nat)

  const LETTERS := "\"\\/bfnrt"
  const MEANT := "\"\\/\U{8}\U{C}\n\r\t"

  predicate IsShort(letter: char, c: char) { exists k :: 0 <= k < 8 && letter == LETTERS[k] && c == MEANT[k] }

  predicate IsHigh(n: nat) { 0xD800 <= n < 0xDC00 }

  // Of the second escape of a pair only the last ten bits count; that it is a low surrogate is not
  // tested, nor that no low surrogate stands alone.
  predicate IsItem(i: Item) {
    match i
    case Plain(c) => c != '"' && c != '\\'
    case Short(letter, c) => IsShort(letter, c)
    case Code(hex, cp) => SpellsHex(hex, cp) && !IsHigh(cp)
    case Pair(high, low, second, cp) =>
      0x10000 <= cp <= 0x10FFFF && SpellsHex(high, 0xD800 + (cp - 0x10000) / 0x400)
      && SpellsHex(low, second) && second % 0x400 == cp % 0x400
  }

  function Spelled(i: Item): string {
    match i
    case Plain(c) => [c]
    case Short(letter, _) => ['\\', letter]
    case Code(hex, _) => ['\\', 'u'] + hex
    case Pair(high, low, _, _) => ['\\', 'u'] + (high + (['\\', 'u'] + low))
  }

  // The byte, or a sequence that decodes to the code point.
  predicate Means(i: Item, bytes: string) {
    match i
    case Plain(c) => bytes == [c]
    case Short(_, c) => bytes == [c]
    case Code(_, cp) => DecodeUtf8(bytes) == Some(cp) && |bytes| == Utf8Length(cp)
    case Pair(_, _, _, cp) => DecodeUtf8(bytes) == Some(cp) && |bytes| == Utf8Length(cp)
  }

  lemma {:induction false} SimpleEscapeMeans(letter: char, c: char)
    ensures SimpleEscape(letter) == Some(c) <==> IsShort(letter, c)
    ensures SimpleEscape('u').None?
  {
    assert LETTERS[0] == '"' && LETTERS[1] == '\\' && LETTERS[2] == '/' && LETTERS[3] == 'b';
    assert LETTERS[4] == 'f' && LETTERS[5] == 'n' && LETTERS[6] == 'r' && LETTERS[7] == 't';
    assert MEANT[0] == '"' && MEANT[1] == '\\' && MEANT[2] == '/' && MEANT[3] == '\U{8}';
    assert MEANT[4] == '\U{C}' && MEANT[5] == '\n' && MEANT[6] == '\r' && MEANT[7] == '\t';
  }

  function Bytes(i: Item): string
    requires IsItem(i)
  {
    match i
    case Plain(c) => [c]
    case Short(_, c) => [c]
    case Code(_, cp) => Utf8(cp)
    case Pair(_, _, _, cp) => Utf8(cp)
  }

  lemma {:induction false} BytesMean(i: Item)
    requires IsItem(i)
    ensures Means(i, Bytes(i))
  {
    hide Utf8, DecodeUtf8, Utf8Length, SpellsHex;
    match i
    case Code(_, cp) => CodeIsSmall(i); Utf8Decodes(cp);
    case Pair(_, _, _, cp) => Utf8Decodes(cp);
    case _ =>
  }

  lemma {:induction false} CodeIsSmall(i: Item)
    requires i.Code? && IsItem(i)
    ensures i.cp < 0x10000
  {}

  predicate AreItems(items: seq<Item>) { forall i <- items :: IsItem(i) }

  function SpelledAll(items: seq<Item>): string {
    if items == [] then "" else Spelled(items[0]) + SpelledAll(items[1..])
  }

  function BytesOf(items: seq<Item>): string
    requires AreItems(items)
  {
    if items == [] then "" else Bytes(items[0]) + BytesOf(items[1..])
  }

  lemma {:induction false} HexReads(hex: string, n: nat, rest: string)
    requires SpellsHex(hex, n)
    ensures Unicode4(hex + rest) == Some(n) && (hex + rest)[4..] == rest
  {
    hide SpellsHex, Unicode4;
    HexIsFour(hex, n);
    assert (hex + rest)[..4] == hex;
    Unicode4Means(hex + rest, n);
  }

  lemma {:induction false} HexIsFour(hex: string, n: nat)
    requires SpellsHex(hex, n)
    ensures |hex| == 4 && n < 0x10000
  {}

  lemma {:induction false} CodeReads(hex: string, cp: nat, rest: string)
    requires SpellsHex(hex, cp) && !IsHigh(cp)
    ensures UnicodeCodePoint(hex + rest) == Some(CodePoint(cp, rest))
  {
    hide Unicode4, SpellsHex;
    HexReads(hex, cp, rest);
  }

  lemma {:induction false} PairReads(high: string, low: string, second: nat, cp: nat, rest: string)
    requires IsItem(Pair(high, low, second, cp))
    ensures UnicodeCodePoint(high + (['\\', 'u'] + low + rest)) == Some(CodePoint(cp, rest))
  {
    hide Unicode4, SpellsHex;
    var after := ['\\', 'u'] + low + rest;
    HexIsFour(low, second);
    HexReads(high, 0xD800 + (cp - 0x10000) / 0x400, after);
    assert after[2..] == low + rest && after[6..] == (low + rest)[4..];
    HexReads(low, second, rest);
    PairValue(cp, second);
  }

  lemma {:induction false} EscapeOfCode(code: string, cp: CodePoint)
    requires UnicodeCodePoint(code) == Some(cp)
    ensures Unescape(['\\', 'u'] + code) == Prepend(Utf8(cp.value), Unescape(cp.rest))
  {
    hide UnicodeCodePoint, Utf8;
    assert (['\\', 'u'] + code)[2..] == code;
  }

  lemma {:induction false} EscapeOfLetter(letter: char, c: char, rest: string)
    requires IsShort(letter, c)
    ensures Unescape(['\\', letter] + rest) == Prepend([c], Unescape(rest))
  {
    SimpleEscapeMeans(letter, c);
    hide UnicodeCodePoint, Utf8, SimpleEscape, IsShort;
    assert (['\\', letter] + rest)[2..] == rest;
  }

  lemma {:induction false} PlainReads(c: char, rest: string)
    requires c != '"' && c != '\\'
    ensures Unescape([c] + rest) == Prepend([c], Unescape(rest))
  {
    hide UnicodeCodePoint, Utf8, SimpleEscape;
    assert ([c] + rest)[1..] == rest;
  }

  // Every way to spell a character reads as it, whatever follows.
  lemma {:induction false} ItemReads(i: Item, rest: string)
    requires IsItem(i)
    ensures Unescape(Spelled(i) + rest) == Prepend(Bytes(i), Unescape(rest))
  {
    hide Unescape, UnicodeCodePoint, Utf8, SpellsHex, IsShort, Prepend;
    match i
    case Plain(c) => PlainReads(c, rest);
    case Short(letter, c) => EscapeOfLetter(letter, c, rest);
    case Code(hex, cp) =>
      CodeIsSmall(i);
      CodeReads(hex, cp, rest);
      EscapeOfCode(hex + rest, CodePoint(cp, rest));
      assert Spelled(i) + rest == ['\\', 'u'] + (hex + rest);
    case Pair(high, low, second, cp) =>
      PairReads(high, low, second, cp, rest);
      var code := high + (['\\', 'u'] + low + rest);
      EscapeOfCode(code, CodePoint(cp, rest));
      assert Spelled(i) + rest == ['\\', 'u'] + code;
  }

  lemma {:induction false} PairValue(cp: nat, second: nat)
    requires 0x10000 <= cp <= 0x10FFFF && second % 0x400 == cp % 0x400
    ensures var u := 0xD800 + (cp - 0x10000) / 0x400;
            0xD800 <= u <= 0xDBFF && 0x10000 + (u - 0xD800) * 0x400 + second % 0x400 == cp
  {}

  lemma {:induction false} ItemsRead(items: seq<Item>, more: string)
    requires AreItems(items) && (more == "" || more[0] == '"')
    ensures Unescape(SpelledAll(items) + more) == Some(BytesOf(items))
    decreases |items|
  {
    hide IsItem, Spelled, Bytes, Unescape;
    if items == [] {
      assert "" + more == more;
      NothingMore(more);
    } else {
      assert IsItem(items[0]);
      ItemsRead(items[1..], more);
      ItemReads(items[0], SpelledAll(items[1..]) + more);
      assert SpelledAll(items) + more == Spelled(items[0]) + (SpelledAll(items[1..]) + more);
    }
  }

  lemma {:induction false} NothingMore(more: string)
    requires more == "" || more[0] == '"'
    ensures Unescape(more) == Some("")
  {}

  // The first character of a body that is decoded, as an item.
  lemma {:induction false} FirstItem(s: string) returns (i: Item, rest: string)
    requires Unescape(s).Some? && s != "" && s[0] != '"'
    ensures IsItem(i) && s == Spelled(i) + rest && Unescape(rest).Some?
  {
    hide Utf8, Unicode4, SpellsHex, IsShort, SimpleEscape;
    if s[0] != '\\' {
      i, rest := Plain(s[0]), s[1..];
    } else if s[1] == 'u' {
      i, rest := FirstCode(s[2..]);
      assert s == ['\\', 'u'] + s[2..];
    } else {
      var c := SimpleEscape(s[1]).value;
      SimpleEscapeMeans(s[1], c);
      i, rest := Short(s[1], c), s[2..];
    }
  }

  lemma {:induction false} FirstCode(s: string) returns (i: Item, rest: string)
    requires UnicodeCodePoint(s).Some?
    ensures IsItem(i) && ['\\', 'u'] + s == Spelled(i) + rest && rest == UnicodeCodePoint(s).value.rest
  {
    hide SpellsHex, Unicode4;
    var u := Unicode4(s).value;
    Unicode4Means(s, u);
    assert s == s[..4] + s[4..];
    if !IsHigh(u) {
      i, rest := Code(s[..4], u), s[4..];
    } else {
      var after := s[4..];
      var low := Unicode4(after[2..]).value;
      Unicode4Means(after[2..], low);
      var cp := 0x10000 + (u - 0xD800) * 0x400 + low % 0x400;
      HighOf(u, low);
      i, rest := Pair(s[..4], after[2..][..4], low, cp), after[6..];
      assert after == ['\\', 'u'] + (after[2..][..4] + after[6..]);
    }
  }

  lemma {:induction false} HighOf(u: nat, low: nat)
    requires 0xD800 <= u < 0xDC00
    ensures var cp := 0x10000 + (u - 0xD800) * 0x400 + low % 0x400;
            0x10000 <= cp <= 0x10FFFF && 0xD800 + (cp - 0x10000) / 0x400 == u && cp % 0x400 == low % 0x400
  {}

  lemma {:induction false} BodyIsSpelled(s: string) returns (items: seq<Item>, more: string)
    requires Unescape(s).Some?
    ensures AreItems(items) && s == SpelledAll(items) + more && (more == "" || more[0] == '"')
    decreases |s|
  {
    hide IsItem, Spelled, Bytes, Unescape;
    if s == "" || s[0] == '"' {
      items, more := [], s;
    } else {
      var i, rest := FirstItem(s);
      SpelledIsLong(i);
      items, more := BodyIsSpelled(rest);
      assert Spelled(i) + (SpelledAll(items) + more) == Spelled(i) + SpelledAll(items) + more;
      items := [i] + items;
    }
  }

  lemma {:induction false} SpelledIsLong(i: Item)
    ensures Spelled(i) != ""
  {}

  // The items spell the body up to its end or a bare quote.
  predicate Spells(s: string, items: seq<Item>, more: string) {
    AreItems(items) && s == SpelledAll(items) + more && (more == "" || more[0] == '"')
  }

  // A body is decoded exactly when it is such a spelling, up to its end or a bare quote, and then
  // to the bytes of the characters spelled.
  lemma {:induction false} BodyMeans(s: string, out: string)
    ensures Unescape(s) == Some(out) <==>
            exists items, more :: Spells(s, items, more) && out == BytesOf(items)
  {
    hide Unescape, BytesOf, IsItem;
    if Unescape(s).Some? {
      var items, more := BodyIsSpelled(s);
      assert Spells(s, items, more);
      ItemsRead(items, more);
    }
    forall items, more | Spells(s, items, more)
      ensures Unescape(s) == Some(BytesOf(items))
    {
      ItemsRead(items, more);
    }
  }

  lemma {:induction false} ItemIsBody(i: Item, b: string)
    requires IsItem(i) && JsonLexemes.IsBody(b)
    ensures JsonLexemes.IsBody(Spelled(i) + b)
  {
    hide JsonLexemes.IsBody, IsHexDigitOf, IsShort;
    match i
    case Plain(c) => BodyAfterPlain([c], b);
    case Short(letter, c) => BodyAfterEscape(letter, b);
    case Code(hex, cp) =>
      assert ['\\', 'u'] + hex + b == ['\\', 'u'] + (hex + b);
      HexIsPlain(hex, cp);
      BodyAfterPlain(hex, b);
      BodyAfterEscape('u', hex + b);
    case Pair(high, low, second, cp) =>
      var tail := ['\\', 'u'] + (low + b);
      assert Spelled(i) + b == ['\\', 'u'] + (high + tail);
      HexIsPlain(low, second);
      HexIsPlain(high, 0xD800 + (cp - 0x10000) / 0x400);
      BodyAfterPlain(low, b);
      BodyAfterEscape('u', low + b);
      BodyAfterPlain(high, tail);
      BodyAfterEscape('u', high + tail);
  }

  predicate AllPlain(s: string) { forall c <- s :: c != '"' && c != '\\' }

  lemma {:induction false} HexIsPlain(hex: string, n: nat)
    requires SpellsHex(hex, n)
    ensures AllPlain(hex)
  {
    hide IsHexDigitOf, HexValue;
    HexValueMeans(hex[0], n / 0x1000);
    HexValueMeans(hex[1], n / 0x100 % 0x10);
    HexValueMeans(hex[2], n / 0x10 % 0x10);
    HexValueMeans(hex[3], n % 0x10);
    NoHexValue();
  }

  lemma {:induction false} NoHexValue()
    ensures HexValue('"').None? && HexValue('\\').None?
  {}

  lemma {:induction false} BodyAfterPlain(s: string, b: string)
    requires AllPlain(s) && JsonLexemes.IsBody(b)
    ensures JsonLexemes.IsBody(s + b)
    decreases |s|
  {
    if s == "" {
      assert s + b == b;
    } else {
      assert s[0] in s && forall c <- s[1..] :: c in s;
      assert (s + b)[1..] == s[1..] + b;
      BodyAfterPlain(s[1..], b);
    }
  }

  lemma {:induction false} BodyAfterEscape(c: char, b: string)
    requires JsonLexemes.IsBody(b)
    ensures JsonLexemes.IsBody(['\\', c] + b)
  {
    assert (['\\', c] + b)[2..] == b;
  }

  lemma {:induction false} SpelledIsBody(items: seq<Item>)
    requires AreItems(items)
    ensures JsonLexemes.IsBody(SpelledAll(items))
  {
    hide IsItem, Spelled;
    if items != [] {
      assert IsItem(items[0]);
      SpelledIsBody(items[1..]);
      ItemIsBody(items[0], SpelledAll(items[1..]));
    }
  }

  // The whole way from the text to the bytes: quoted spellings are one token, and that decodes.
  lemma {:induction false} SpelledStringReads(items: seq<Item>, rest: string)
    requires AreItems(items)
    ensures var text := "\"" + SpelledAll(items) + "\"";
            ReadToken(text + rest) == Lexed(StringToken(text), rest) && DecodeToken(text) == Some(BytesOf(items))
  {
    hide AreItems, SpelledAll, BytesOf, JsonLexemes.IsBody, Unescape, TokenAt;
    var b := SpelledAll(items);
    var text := "\"" + b + "\"";
    SpelledIsBody(items);
    ItemsRead(items, "");
    assert b + "" == b && text[1..|text| - 1] == b;
    JsonLexemes.StringAt(text + rest, b, rest);
    assert (text + rest)[0] == '"';
  }

  // ---- what may stand in a quoted text ----

  // A writer leaves no control character in a text, and changes one only if it has to.
  lemma {:induction false} QuotedHasNoControls(s: string)
    ensures forall c :: c in Quoted(s) ==> c >= ' '
    ensures EscapeAll(s) == s <==> forall c :: c in s ==> c >= ' ' && c != '"' && c != '\\'
  {
    EscapedHasNoControls(s);
    if forall c :: c in s ==> c >= ' ' && c != '"' && c != '\\' {
      PlainTextIsItsOwnEscape(s);
    } else {
      EscapedIsLonger(s);
    }
  }

  lemma {:induction false} EscapedHasNoControls(s: string)
    ensures forall c :: c in EscapeAll(s) ==> c >= ' '
    decreases |s|
  {
    hide Escape;
    if s != "" {
      EscapeHasNoControls(s[0]);
      EscapedHasNoControls(s[1..]);
    }
  }

  lemma {:induction false} EscapeHasNoControls(c: char)
    ensures forall e :: e in Escape(c) ==> e >= ' '
    ensures NeedsEscape(c) ==> |Escape(c)| >= 2
    ensures |Escape(c)| >= 1
  {}

  lemma {:induction false} EscapedIsLonger(s: string)
    ensures |EscapeAll(s)| >= |s|
    ensures (exists c :: c in s && NeedsEscape(c)) ==> |EscapeAll(s)| > |s|
    decreases |s|
  {
    hide Escape, NeedsEscape;
    if s != "" {
      EscapeHasNoControls(s[0]);
      EscapedIsLonger(s[1..]);
      assert s == [s[0]] + s[1..];
    }
  }
}
