// dylib/feats/prefixstate.c: vdf_token, the reader of quoted tokens, which undoes the doubling.
module VdfToken {
  import opened Options
  import opened Backslashes
  import Pieces

  // The decoded text up to the closing quote, and what follows: a quote or the end.
  datatype Token = Token(text: string, rest: string)

  function UnescapeVdf(c: char): char {
    if c == 'n' then '\n' else if c == 't' then '\t' else c
  }

  function TokenBody(s: string): (t: Token)
    ensures |t.rest| <= |s| && (t.rest == "" || t.rest[0] == '"')
    decreases |s|
  {
    if s == "" || s[0] == '"' then Token("", s)
    else if s[0] == '\\' && |s| > 1 then
      var t := TokenBody(s[2..]);
      Token([UnescapeVdf(s[1])] + t.text, t.rest)
    else
      var t := TokenBody(s[1..]);
      Token([s[0]] + t.text, t.rest)
  }

  function AfterQuote(s: string): Option<string> {
    if s == "" then None else if s[0] == '"' then Some(s[1..]) else AfterQuote(s[1..])
  }

  // The next quoted token of a line; None when there is no opening or no closing quote.
  function NextToken(line: string): Option<Token> {
    match AfterQuote(line)
    case None => None
    case Some(s) =>
      var t := TokenBody(s);
      if t.rest == "" then None else Some(Token(t.text, t.rest[1..]))
  }

  function Cut(text: string, cap: nat): (cut: string)
    requires cap > 0
    ensures cut <= text && |cut| < cap && (cut == text || |cut| == cap - 1)
  {
    if |text| < cap then text else text[..cap - 1]
  }

  // The output buffer holds the token, cut to the capacity; the result is the place after the
  // closing quote.
  method VdfToken(line: string, start: nat, out: array<char>) returns (after: Option<nat>)
    requires start <= |line| && out.Length > 0
    modifies out
    ensures after.None? <==> NextToken(line[start..]).None?
    ensures after.Some? ==> after.value <= |line| && line[after.value..] == NextToken(line[start..]).value.rest
    ensures AfterQuote(line[start..]).None? ==> out[..] == old(out[..])
    ensures AfterQuote(line[start..]).Some? ==>
              var text := Cut(TokenBody(AfterQuote(line[start..]).value).text, out.Length);
              |text| < out.Length && out[..|text|] == text && out[|text|] == '\0'
  {
    hide TokenBody, Cut;
    var p := start;
    while p < |line| && line[p] != '"'
      invariant p <= |line| && AfterQuote(line[start..]) == AfterQuote(line[p..])
    {
      assert line[p..][1..] == line[p + 1..];
      p := p + 1;
    }
    if p == |line| { return None; }
    assert line[p..][1..] == line[p + 1..];
    var end := TokenInto(line, p + 1, out);
    return if end < |line| then Some(end + 1) else None;
  }

  // The body of the token; `end` stands at the closing quote or at the end of the line.
  method TokenInto(line: string, start: nat, out: array<char>) returns (end: nat)
    requires start <= |line| && out.Length > 0
    modifies out
    ensures end <= |line| && line[end..] == TokenBody(line[start..]).rest
    ensures var text := Cut(TokenBody(line[start..]).text, out.Length);
            |text| < out.Length && out[..|text|] == text && out[|text|] == '\0'
  {
    hide TokenBody, Cut, Reading, UnescapeVdf;
    end := start;
    ghost var text := "";
    var n := 0;
    ReadingStarts(line, start, out.Length);
    while end < |line| && line[end] != '"'
      invariant end <= |line| && Reading(line, start, end, text)
      invariant n == |Cut(text, out.Length)| < out.Length && out[..n] == Cut(text, out.Length)
      decreases |line| - end
    {
      ReadingStep(line, start, end, text);
      var c := line[end];
      if c == '\\' && end + 1 < |line| {
        end := end + 1;
        c := UnescapeVdf(line[end]);
      }
      CutOneMore(text, c, out.Length);
      if n + 1 < out.Length {
        ghost var was := out[..n];
        out[n] := c;
        n := n + 1;
        assert out[..n] == was + [c];
      }
      text := text + [c];
      end := end + 1;
    }
    out[n] := '\0';
    ReadingEnds(line, start, end, text);
  }

  // `text` is what has been decoded between start and p.
  ghost predicate Reading(line: string, start: nat, p: nat, text: string)
    requires start <= |line| && p <= |line|
  {
    TokenBody(line[start..]) == Token(text + TokenBody(line[p..]).text, TokenBody(line[p..]).rest)
  }

  lemma {:induction false} ReadingStarts(line: string, start: nat, cap: nat)
    requires start <= |line| && cap > 0
    ensures Reading(line, start, start, "") && Cut("", cap) == ""
  {
    assert "" + TokenBody(line[start..]).text == TokenBody(line[start..]).text;
  }

  lemma {:induction false} ReadingStep(line: string, start: nat, p: nat, text: string)
    requires start <= |line| && p < |line| && line[p] != '"' && Reading(line, start, p, text)
    ensures if line[p] == '\\' && p + 1 < |line| then Reading(line, start, p + 2, text + [UnescapeVdf(line[p + 1])])
            else Reading(line, start, p + 1, text + [line[p]])
  {
    hide UnescapeVdf;
    assert line[p..][1..] == line[p + 1..];
    if p + 1 < |line| { assert line[p..][2..] == line[p + 2..]; }
    var t := TokenBody(line[p..]).text;
    assert text + t == text + [t[0]] + t[1..];
  }

  lemma {:induction false} ReadingEnds(line: string, start: nat, p: nat, text: string)
    requires start <= |line| && p <= |line| && Reading(line, start, p, text)
    requires p < |line| ==> line[p] == '"'
    ensures TokenBody(line[start..]) == Token(text, line[p..])
  {
    assert p < |line| ==> line[p..][0] == line[p];
    assert text + "" == text;
  }

  lemma {:induction false} CutOneMore(text: string, c: char, cap: nat)
    requires cap > 0
    ensures Cut(text + [c], cap) == if |Cut(text, cap)| + 1 < cap then Cut(text, cap) + [c] else Cut(text, cap)
  {}

  // ---- reading a doubled path back ----

  // The reader stops at the first quote of the path, if it has one, and at the closing one if not.
  lemma {:induction false} BodyOfDoubled(path: string, rest: string)
    ensures var b := Pieces.FirstPiece('"', path);
            TokenBody(Doubled(path) + "\"" + rest) == Token(b, Doubled(path[|b|..]) + "\"" + rest)
    decreases |path|
  {
    hide TokenBody;
    if path == "" || path[0] == '"' {
      BodyEnds(path, rest);
    } else {
      var c, tail := path[0], Doubled(path[1..]) + "\"" + rest;
      var first := if c == '\\' then "\\\\" else [c];
      BodyOfDoubled(path[1..], rest);
      BodyOfOne(c, tail);
      Regroup(first, Doubled(path[1..]), "\"", rest);
      assert path[|Pieces.FirstPiece('"', path)|..] == path[1..][|Pieces.FirstPiece('"', path[1..])|..];
    }
  }

  lemma {:induction false} BodyEnds(path: string, rest: string)
    requires path == "" || path[0] == '"'
    ensures Pieces.FirstPiece('"', path) == "" && path[0..] == path
    ensures TokenBody(Doubled(path) + "\"" + rest) == Token("", Doubled(path) + "\"" + rest)
  {}

  lemma {:induction false} Regroup(a: string, b: string, c: string, d: string)
    ensures (a + b) + c + d == a + (b + c + d)
  {}

  lemma {:induction false} BodyOfOne(c: char, tail: string)
    requires c != '"'
    ensures var t := TokenBody(tail);
            TokenBody((if c == '\\' then "\\\\" else [c]) + tail) == Token([c] + t.text, t.rest)
  {
    if c == '\\' {
      assert ("\\\\" + tail)[2..] == tail;
    } else {
      assert ([c] + tail)[1..] == tail;
    }
  }

  // The reader returns the path exactly when the path has no quote.
  lemma {:induction false} DoubledReadsBack(path: string, rest: string)
    ensures TokenBody(Doubled(path) + "\"" + rest) == Token(path, "\"" + rest) <==> '"' !in path
  {
    BodyOfDoubled(path, rest);
    if '"' !in path {
      assert path[|path|..] == "" && Doubled("") + "\"" + rest == "\"" + rest;
    }
  }

  // A library entry as setup_steam_files writes it: both tokens of its line come back.
  lemma {:induction false} LibraryLineReadsBack(path: string)
    requires '"' !in path
    ensures var line := "\t\t\"path\"\t\t\"" + Doubled(path) + "\"\n";
            && NextToken(line).Some? && NextToken(line).value.text == "path"
            && NextToken(NextToken(line).value.rest) == Some(Token(path, "\n"))
  {
    hide TokenBody, Doubled, AfterQuote;
    var line := "\t\t\"path\"\t\t\"" + Doubled(path) + "\"\n";
    var value := Doubled(path) + "\"" + "\n";
    var key := "path" + "\"" + ("\t\t" + "\"" + value);
    SkipToQuote("\t\t", key);
    SkipToQuote("\t\t", value);
    assert line == "\t\t" + "\"" + key;
    assert Doubled("path") == "path" by {
      assert Count("path") == 0;
      NothingToDouble("path");
    }
    DoubledReadsBack("path", "\t\t" + "\"" + value);
    DoubledReadsBack(path, "\n");
  }

  lemma {:induction false} SkipToQuote(before: string, rest: string)
    requires '"' !in before
    ensures AfterQuote(before + "\"" + rest) == Some(rest)
    decreases |before|
  {
    var s := before + "\"" + rest;
    if before == "" {
      assert s[1..] == rest;
    } else {
      SkipToQuote(before[1..], rest);
      assert s[1..] == before[1..] + "\"" + rest;
    }
  }

  // ---- what a token is ----

  // A character of a body: written as it is, one of the two escapes with a meaning of their own,
  // or any other character behind a backslash.
  datatype Item = Plain(c: char) | LineFeed | Tabulator | Escaped(c: char)

  predicate IsItem(item: Item) {
    match item
    case Plain(c) => c != '"' && c != '\\'
    case Escaped(c) => c != 'n' && c != 't'
    case _ => true
  }

  function Spelling(item: Item): string {
    match item
    case Plain(c) => [c]
    case LineFeed => "\\n"
    case Tabulator => "\\t"
    case Escaped(c) => ['\\', c]
  }

  function Meaning(item: Item): char {
    match item
    case Plain(c) => c
    case LineFeed => '\n'
    case Tabulator => '\t'
    case Escaped(c) => c
  }

  // `s` is these items before `rest`; a backslash at the very end of a line stands for itself.
  predicate IsBody(items: seq<Item>, text: string, rest: string, s: string) {
    if items == [] then (text == "" && rest == s && (s == "" || s[0] == '"')) || (text == s == "\\" && rest == "")
    else
      && IsItem(items[0]) && Spelling(items[0]) <= s
      && text != "" && text[0] == Meaning(items[0])
      && IsBody(items[1..], text[1..], rest, s[|Spelling(items[0])|..])
  }

  lemma {:induction false} BodyIsRead(items: seq<Item>, text: string, rest: string, s: string)
    requires IsBody(items, text, rest, s)
    ensures TokenBody(s) == Token(text, rest)
    decreases |items|
  {
    if items != [] {
      BodyIsRead(items[1..], text[1..], rest, s[|Spelling(items[0])|..]);
      assert text == [text[0]] + text[1..];
    } else if s == "\\" {
      assert s[1..] == "";
    }
  }

  lemma {:induction false} ReadIsBody(s: string) returns (items: seq<Item>)
    ensures IsBody(items, TokenBody(s).text, TokenBody(s).rest, s)
    decreases |s|
  {
    if s == "" || s[0] == '"' || s == "\\" {
      items := [];
      assert s == "\\" ==> s[1..] == "";
    } else {
      var item := if s[0] != '\\' then Plain(s[0]) else if s[1] == 'n' then LineFeed
                  else if s[1] == 't' then Tabulator else Escaped(s[1]);
      var rest := ReadIsBody(s[|Spelling(item)|..]);
      items := [item] + rest;
      assert items[1..] == rest && TokenBody(s).text[1..] == TokenBody(s[|Spelling(item)|..]).text;
    }
  }

  // A token starts behind the first quote of the line, is what its items mean, and ends at a quote.
  ghost predicate IsToken(line: string, token: Token, before: string, items: seq<Item>, s: string) {
    '"' !in before && line == before + "\"" + s && IsBody(items, token.text, "\"" + token.rest, s)
  }

  lemma {:induction false} TokenMeans(line: string, token: Token)
    ensures NextToken(line) == Some(token) <==> exists before, items, s :: IsToken(line, token, before, items, s)
  {
    hide TokenBody, IsBody;
    if NextToken(line) == Some(token) {
      var before := Pieces.FirstPiece('"', line);
      AtFirstQuote(line);
      var s := line[|before| + 1..];
      var items := ReadIsBody(s);
      assert TokenBody(s).rest == "\"" + token.rest;
      assert IsToken(line, token, before, items, s);
    }
    if before, items, s :| IsToken(line, token, before, items, s) {
      SkipToQuote(before, s);
      BodyIsRead(items, token.text, "\"" + token.rest, s);
      assert ("\"" + token.rest)[1..] == token.rest;
    }
  }

  lemma {:induction false} AtFirstQuote(line: string)
    ensures var n := |Pieces.FirstPiece('"', line)|;
            AfterQuote(line) == if n < |line| then Some(line[n + 1..]) else None
    decreases |line|
  {
    if line != "" && line[0] != '"' {
      AtFirstQuote(line[1..]);
      var n := |Pieces.FirstPiece('"', line[1..])|;
      assert n < |line| - 1 ==> line[1..][n + 1..] == line[n + 2..];
    }
  }
}
