// What the two JSON writers lay out: the lines StyledWriter writes, what stands on each and how far
// it is indented, told without the layout state; and FastWriter's text as its tokens.
module JsonLayout {
  import opened Pieces
  import opened JsonValue
  import opened JsonNumber
  import opened JsonString
  import opened JsonSyntax
  import opened JsonTokens
  import opened JsonFastWriter
  import opened JsonStyledWriter

  // ---- lines ----

  // The same lines with something before the first, or behind the last.
  function Headed(lead: string, lines: seq<string>): (r: seq<string>)
    requires lines != []
    ensures |r| == |lines|
  {
    [lead + lines[0]] + lines[1..]
  }

  function Tailed(lines: seq<string>, tail: string): (r: seq<string>)
    requires lines != []
    ensures |r| == |lines|
  {
    lines[..|lines| - 1] + [lines[|lines| - 1] + tail]
  }

  // The lines of a value whose first line goes on where it is begun: members and items of a
  // container that is broken are indented three spaces further, the closing bracket is not.
  function LinesOf(v: Value, indent: string): (r: seq<string>)
    ensures r != []
    decreases v, 1
  {
    if Flat(v) then [FlatText(v)]
    else if v.Obj? then ["{"] + MemberLines(v.members, indent + INDENT) + [indent + "}"]
    else if Multiline(v.items) then ["["] + ItemLines(v.items, indent + INDENT) + [indent + "]"]
    else ["[ " + Listed(v.items) + " ]"]
  }

  function ItemLines(items: seq<Value>, indent: string): (r: seq<string>)
    requires items != []
    ensures r != []
    decreases items, 0
  {
    var first := Headed(indent, LinesOf(items[0], indent));
    if |items| == 1 then first else Tailed(first, ",") + ItemLines(items[1..], indent)
  }

  function MemberLines(members: seq<Member>, indent: string): (r: seq<string>)
    requires members != []
    ensures r != []
    decreases members, 0
  {
    var first := Headed(indent + Quoted(UpToNul(members[0].name)) + " : ", LinesOf(members[0].value, indent));
    if |members| == 1 then first else Tailed(first, ",") + MemberLines(members[1..], indent)
  }

  function Listed(items: seq<Value>): string
    requires items != [] && forall x :: x in items ==> Flat(x)
  {
    if |items| == 1 then FlatText(items[0]) else FlatText(items[0]) + ", " + Listed(items[1..])
  }

  // ---- gluing lines ----

  lemma {:induction false} GlueAppend(a: seq<string>, b: seq<string>)
    requires a != [] && b != []
    ensures Glue('\n', a + b) == Glue('\n', a) + "\n" + Glue('\n', b)
    decreases |a|
  {
    if |a| == 1 {
      assert (a + b)[1..] == b;
    } else {
      GlueAppend(a[1..], b);
      assert (a + b)[1..] == a[1..] + b;
      var x, y, z := a[0] + ['\n'], Glue('\n', a[1..]), "\n" + Glue('\n', b);
      assert x + (y + z) == (x + y) + z;
      assert Glue('\n', a[1..]) + "\n" + Glue('\n', b) == y + z;
    }
  }

  lemma {:induction false} GlueHeaded(lead: string, lines: seq<string>)
    requires lines != []
    ensures Glue('\n', Headed(lead, lines)) == lead + Glue('\n', lines)
  {
    var h := Headed(lead, lines);
    if |lines| > 1 {
      assert h[1..] == lines[1..];
      assert (lead + lines[0]) + ['\n'] + Glue('\n', lines[1..]) == lead + (lines[0] + ['\n'] + Glue('\n', lines[1..]));
    }
  }

  lemma {:induction false} GlueTailed(lines: seq<string>, tail: string)
    requires lines != []
    ensures Glue('\n', Tailed(lines, tail)) == Glue('\n', lines) + tail
    decreases |lines|
  {
    var t := Tailed(lines, tail);
    if |lines| > 1 {
      GlueTailed(lines[1..], tail);
      assert t[0] == lines[0] && t[1..] == Tailed(lines[1..], tail);
      assert lines[0] + ['\n'] + (Glue('\n', lines[1..]) + tail) == (lines[0] + ['\n'] + Glue('\n', lines[1..])) + tail;
    }
  }

  // ---- where a text ends ----

  // Neither in a space nor in a line end.
  predicate Solid(s: string) { s != "" && s[|s| - 1] != ' ' && s[|s| - 1] != '\n' }

  lemma {:induction false} SolidAfter(a: string, b: string)
    requires Solid(b)
    ensures Solid(a + b)
  {}

  lemma {:induction false} FlatIsSolid(v: Value)
    requires Printable(v) && Flat(v)
    ensures Solid(FlatText(v))
  {
    match v
    case Int(i) => NumberIsSolid(i);
    case UInt(u) => NumberIsSolid(u);
    case _ =>
  }

  lemma {:induction false} NumberIsSolid(n: int)
    ensures Solid(IntText(n))
  {}

  lemma {:induction false} GlueIsSolid(lines: seq<string>)
    requires lines != [] && Solid(lines[|lines| - 1])
    ensures Solid(Glue('\n', lines))
    decreases |lines|
  {
    if |lines| > 1 {
      GlueIsSolid(lines[1..]);
      SolidAfter(lines[0] + ['\n'], Glue('\n', lines[1..]));
    }
  }

  lemma {:induction false} HeadedIsSolid(lead: string, lines: seq<string>)
    requires lines != [] && Solid(lines[|lines| - 1])
    ensures Solid(Headed(lead, lines)[|lines| - 1])
  {
    if |lines| == 1 { SolidAfter(lead, lines[0]); }
  }

  lemma {:induction false} LinesAreSolid(v: Value, indent: string)
    requires Printable(v)
    ensures Solid(LinesOf(v, indent)[|LinesOf(v, indent)| - 1])
    decreases v, 1
  {
    if Flat(v) {
      FlatIsSolid(v);
    } else if v.Obj? || Multiline(v.items) {
      SolidAfter(indent, if v.Obj? then "}" else "]");
    }
  }

  lemma {:induction false} ItemLinesAreSolid(items: seq<Value>, indent: string)
    requires items != [] && forall x :: x in items ==> Printable(x)
    ensures Solid(ItemLines(items, indent)[|ItemLines(items, indent)| - 1])
    decreases |items|
  {
    var lines := LinesOf(items[0], indent);
    if |items| == 1 {
      LinesAreSolid(items[0], indent);
      HeadedIsSolid(indent, lines);
    } else {
      ItemLinesAreSolid(items[1..], indent);
    }
  }

  lemma {:induction false} MemberLinesAreSolid(members: seq<Member>, indent: string)
    requires members != [] && forall m :: m in members ==> Printable(m.value)
    ensures Solid(MemberLines(members, indent)[|MemberLines(members, indent)| - 1])
    decreases |members|
  {
    hide LinesOf;
    var lines := LinesOf(members[0].value, indent);
    if |members| == 1 {
      LinesAreSolid(members[0].value, indent);
      HeadedIsSolid(indent + Quoted(UpToNul(members[0].name)) + " : ", lines);
    } else {
      MemberLinesAreSolid(members[1..], indent);
    }
  }

  // ---- the text is its lines ----

  // Where a value goes on without a new line: behind a space, or at the very start.
  predicate Open(doc: string, indent: string) { (doc == "" && indent == "") || (doc != "" && doc[|doc| - 1] == ' ') }

  lemma {:induction false} IndentOpen(doc: string, indent: string)
    ensures Open(doc, indent) ==> Indented(doc, indent) == doc
    ensures Solid(doc) ==> Indented(doc, indent) == doc + "\n" + indent
  {}

  lemma {:induction false} Bracketed(doc: string, open: string, lines: seq<string>, close: string)
    requires lines != []
    ensures doc + Glue('\n', [open] + lines + [close])
         == doc + open + "\n" + Glue('\n', lines) + "\n" + close
  {
    GlueAppend([open] + lines, [close]);
    GlueAppend([open], lines);
    var g := Glue('\n', lines);
    assert doc + (open + "\n" + g + "\n" + close) == doc + open + "\n" + g + "\n" + close;
  }

  lemma {:induction false} StyledIsLines(doc: string, indent: string, v: Value)
    requires Printable(v) && Open(doc, indent)
    ensures Styled(doc, indent, v) == doc + Glue('\n', LinesOf(v, indent))
    decreases v, 2
  {
    hide StyledItems, StyledMembers, ItemLines, MemberLines, FlatText, Indented, OneLine, Listed, Multiline;
    IndentOpen(doc, indent);
    if Flat(v) {
    } else if v.Obj? {
      MembersAreLines(doc + "{", indent + INDENT, v.members);
      var lines := MemberLines(v.members, indent + INDENT);
      MemberLinesAreSolid(v.members, indent + INDENT);
      ClosesAs(doc, "{", lines, indent, "}");
    } else if Multiline(v.items) {
      ItemsAreLines(doc + "[", indent + INDENT, v.items);
      var lines := ItemLines(v.items, indent + INDENT);
      ItemLinesAreSolid(v.items, indent + INDENT);
      ClosesAs(doc, "[", lines, indent, "]");
    } else {
      AllFlat(v.items);
      OneLineIsListed(v.items);
      assert doc + "[ " + (Listed(v.items) + " ]") == doc + ("[ " + Listed(v.items) + " ]");
    }
  }

  lemma {:induction false} AllFlat(items: seq<Value>)
    requires !Multiline(items)
    ensures forall x :: x in items ==> Flat(x)
  {}

  lemma {:induction false} ClosesAs(doc: string, open: string, lines: seq<string>, indent: string, close: string)
    requires lines != [] && Solid(lines[|lines| - 1])
    ensures Indented(doc + open + "\n" + Glue('\n', lines), indent) + close
         == doc + Glue('\n', [open] + lines + [indent + close])
  {
    hide Indented, Glue;
    var body := doc + open + "\n" + Glue('\n', lines);
    GlueIsSolid(lines);
    SolidAfter(doc + open + "\n", Glue('\n', lines));
    IndentOpen(body, indent);
    Bracketed(doc, open, lines, indent + close);
    assert body + "\n" + indent + close == body + "\n" + (indent + close);
  }

  lemma {:induction false} OneLineIsListed(items: seq<Value>)
    requires items != [] && forall x :: x in items ==> Flat(x)
    ensures OneLine(items, true) == Listed(items) + " ]"
    decreases |items|
  {
    hide FlatText;
    var more := items[1..];
    assert items[0] in items && forall x :: x in more ==> x in items;
    if more == [] {
      assert OneLine(more, false) == " ]";
      assert "" + (FlatText(items[0]) + " ]") == FlatText(items[0]) + " ]";
    } else {
      OneLineIsListed(more);
      AfterFirst(more);
      assert "" + (FlatText(items[0]) + (", " + (Listed(more) + " ]")))
          == FlatText(items[0]) + ", " + Listed(more) + " ]";
    }
  }

  lemma {:induction false} AfterFirst(items: seq<Value>)
    requires items != [] && forall x :: x in items ==> Flat(x)
    ensures OneLine(items, false) == ", " + OneLine(items, true)
  {
    hide FlatText;
    assert items[0] in items;
    assert "" + (FlatText(items[0]) + OneLine(items[1..], false)) == FlatText(items[0]) + OneLine(items[1..], false);
  }

  // A line begun in front of more lines.
  lemma {:induction false} FirstLines(doc: string, lead: string, lines: seq<string>, more: seq<string>)
    requires lines != [] && more != []
    ensures doc + "\n" + Glue('\n', Tailed(Headed(lead, lines), ",") + more)
         == doc + "\n" + lead + Glue('\n', lines) + "," + "\n" + Glue('\n', more)
    ensures doc + "\n" + Glue('\n', Headed(lead, lines)) == doc + "\n" + lead + Glue('\n', lines)
  {
    hide Glue;
    var h := Headed(lead, lines);
    GlueAppend(Tailed(h, ","), more);
    GlueTailed(h, ",");
    GlueHeaded(lead, lines);
    var g, m := Glue('\n', lines), Glue('\n', more);
    assert doc + "\n" + (lead + g + "," + "\n" + m) == doc + "\n" + lead + g + "," + "\n" + m;
    assert doc + "\n" + (lead + g) == doc + "\n" + lead + g;
  }

  lemma {:induction false} ItemsAreLines(doc: string, indent: string, items: seq<Value>)
    requires items != [] && (forall x :: x in items ==> Printable(x)) && Solid(doc)
    requires indent != "" && indent[|indent| - 1] == ' '
    ensures StyledItems(doc, indent, items) == doc + "\n" + Glue('\n', ItemLines(items, indent))
    decreases items, 0
  {
    hide Styled, LinesOf, Indented, Glue, Headed, Tailed;
    IndentOpen(doc, indent);
    var line, lines := doc + "\n" + indent, LinesOf(items[0], indent);
    assert line[|line| - 1] == indent[|indent| - 1];
    StyledIsLines(line, indent, items[0]);
    if |items| == 1 {
      FirstLines(doc, indent, lines, [""]);
    } else {
      var written := line + Glue('\n', lines) + ",";
      SolidAfter(line + Glue('\n', lines), ",");
      ItemsAreLines(written, indent, items[1..]);
      FirstLines(doc, indent, lines, ItemLines(items[1..], indent));
    }
  }

  lemma {:induction false} MembersAreLines(doc: string, indent: string, members: seq<Member>)
    requires members != [] && (forall m :: m in members ==> Printable(m.value)) && Solid(doc)
    requires indent != "" && indent[|indent| - 1] == ' '
    ensures StyledMembers(doc, indent, members) == doc + "\n" + Glue('\n', MemberLines(members, indent))
    decreases members, 0
  {
    hide Styled, LinesOf, Indented, Glue, Headed, Tailed, Quoted;
    IndentOpen(doc, indent);
    var name, lines := Quoted(UpToNul(members[0].name)), LinesOf(members[0].value, indent);
    var lead := indent + name + " : ";
    var line := doc + "\n" + lead;
    assert doc + "\n" + indent + name + " : " == line && line[|line| - 1] == ' ';
    assert members[0] in members;
    StyledIsLines(line, indent, members[0].value);
    if |members| == 1 {
      FirstLines(doc, lead, lines, [""]);
    } else {
      var written := line + Glue('\n', lines) + ",";
      SolidAfter(line + Glue('\n', lines), ",");
      MembersAreLines(written, indent, members[1..]);
      FirstLines(doc, lead, lines, MemberLines(members[1..], indent));
    }
  }

  // ---- no line is broken ----

  lemma {:induction false} EscapedIsUnbroken(s: string)
    ensures '\n' !in EscapeAll(s)
    decreases |s|
  {
    if s != "" { EscapedIsUnbroken(s[1..]); }
  }

  lemma {:induction false} DigitsAreUnbroken(n: nat)
    ensures '\n' !in Digits(n)
    decreases n
  {
    if n >= 10 { DigitsAreUnbroken(n / 10); }
  }

  lemma {:induction false} FlatIsUnbroken(v: Value)
    requires Printable(v) && Flat(v)
    ensures '\n' !in FlatText(v)
  {
    match v
    case Int(i) => DigitsAreUnbroken(if i < 0 then -i else i);
    case UInt(u) => DigitsAreUnbroken(u);
    case Str(s) => EscapedIsUnbroken(s);
    case _ =>
  }

  lemma {:induction false} ListedIsUnbroken(items: seq<Value>)
    requires items != [] && forall x :: x in items ==> Flat(x) && Printable(x)
    ensures '\n' !in Listed(items)
    decreases |items|
  {
    hide FlatText;
    FlatIsUnbroken(items[0]);
    if |items| > 1 { ListedIsUnbroken(items[1..]); }
  }

  lemma {:induction false} HeadedIsUnbroken(lead: string, lines: seq<string>)
    requires lines != [] && '\n' !in lead && NoneHas('\n', lines)
    ensures NoneHas('\n', Headed(lead, lines)) && NoneHas('\n', Tailed(Headed(lead, lines), ","))
  {
    assert lines[0] in lines;
    var headed := Headed(lead, lines);
    assert forall c :: c in headed[..|headed| - 1] ==> c in headed;
  }

  lemma {:induction false} LinesAreUnbroken(v: Value, indent: string)
    requires Printable(v) && '\n' !in indent
    ensures NoneHas('\n', LinesOf(v, indent))
    decreases v, 1
  {
    hide FlatText, Listed, Multiline, ItemLines, MemberLines;
    if Flat(v) {
      FlatIsUnbroken(v);
    } else if v.Obj? {
      MembersAreUnbroken(v.members, indent + INDENT);
    } else if Multiline(v.items) {
      ItemsAreUnbroken(v.items, indent + INDENT);
    } else {
      AllFlat(v.items);
      ListedIsUnbroken(v.items);
    }
  }

  lemma {:induction false} ItemsAreUnbroken(items: seq<Value>, indent: string)
    requires items != [] && (forall x :: x in items ==> Printable(x)) && '\n' !in indent
    ensures NoneHas('\n', ItemLines(items, indent))
    decreases items, 0
  {
    hide LinesOf, Headed, Tailed;
    LinesAreUnbroken(items[0], indent);
    HeadedIsUnbroken(indent, LinesOf(items[0], indent));
    if |items| > 1 { ItemsAreUnbroken(items[1..], indent); }
  }

  lemma {:induction false} MembersAreUnbroken(members: seq<Member>, indent: string)
    requires members != [] && (forall m :: m in members ==> Printable(m.value)) && '\n' !in indent
    ensures NoneHas('\n', MemberLines(members, indent))
    decreases members, 0
  {
    hide LinesOf, Headed, Tailed, UpToNul;
    assert members[0] in members;
    LinesAreUnbroken(members[0].value, indent);
    EscapedIsUnbroken(UpToNul(members[0].name));
    HeadedIsUnbroken(indent + Quoted(UpToNul(members[0].name)) + " : ", LinesOf(members[0].value, indent));
    if |members| > 1 { MembersAreUnbroken(members[1..], indent); }
  }

  // ---- the document ----

  // For every printable tree: cut at its line ends the document is the lines told above.
  lemma {:induction false} DocumentIsItsLines(v: Value)
    requires Printable(v)
    ensures Cut('\n', Styled("", "", v)) == LinesOf(v, "")
  {
    hide Styled, LinesOf, Cut, Glue;
    StyledIsLines("", "", v);
    var text := Glue('\n', LinesOf(v, ""));
    assert "" + text == text;
    LinesAreUnbroken(v, "");
    CutOfGlue('\n', LinesOf(v, ""));
  }

  // An array stays on its line exactly when it has at most 24 items, none of them a container
  // with something in it, and its text is shorter than the margin.
  lemma {:induction false} OneLineFits(items: seq<Value>)
    requires items != []
    ensures !Multiline(items) <==>
            |items| <= 24 && (forall x :: x in items ==> Flat(x)) && |"[ " + Listed(items) + " ]"| < RIGHT_MARGIN
  {
    hide FlatText, FlatLength, Listed;
    if !Multiline(items) { AllFlat(items); }
    if forall x :: x in items ==> Flat(x) { ListedLength(items); }
  }

  lemma {:induction false} ListedLength(items: seq<Value>)
    requires items != [] && forall x :: x in items ==> Flat(x)
    ensures |Listed(items)| == FlatLength(items) + 2 * (|items| - 1)
    decreases |items|
  {
    hide FlatText;
    LengthFromFirst(items);
    if |items| > 1 {
      ListedLength(items[1..]);
    } else {
      assert items[1..] == [];
    }
  }

  lemma {:induction false} LengthFromFirst(items: seq<Value>)
    requires items != [] && forall x :: x in items ==> Flat(x)
    ensures FlatLength(items) == |FlatText(items[0])| + FlatLength(items[1..])
    decreases |items|
  {
    hide FlatText;
    var rest, last := items[1..], |items| - 1;
    if last > 0 {
      LengthFromFirst(items[..last]);
      assert items[..last][1..] == rest[..|rest| - 1] && rest[|rest| - 1] == items[last];
    } else {
      assert items[..0] == [] && rest == [];
    }
  }

  // ---- FastWriter ----

  function Spelling(token: Token, colon: string): string {
    match token
    case ObjectBegin => "{"
    case ObjectEnd => "}"
    case ArrayBegin => "["
    case ArrayEnd => "]"
    case ArraySeparator => ","
    case MemberSeparator => colon
    case NullWord => "null"
    case True => "true"
    case False => "false"
    case NumberToken(text) => text
    case StringToken(text) => text
    case _ => ""
  }

  function Spellings(tokens: seq<Token>, colon: string): string {
    if tokens == [] then "" else Spelling(tokens[0], colon) + Spellings(tokens[1..], colon)
  }

  lemma {:induction false} SpellingsAppend(a: seq<Token>, b: seq<Token>, colon: string)
    ensures Spellings(a + b, colon) == Spellings(a, colon) + Spellings(b, colon)
    decreases |a|
  {
    hide Spelling;
    if a == [] {
      assert a + b == b;
    } else {
      SpellingsAppend(a[1..], b, colon);
      assert (a + b)[1..] == a[1..] + b;
      assert Spelling(a[0], colon) + (Spellings(a[1..], colon) + Spellings(b, colon))
          == Spelling(a[0], colon) + Spellings(a[1..], colon) + Spellings(b, colon);
    }
  }

  lemma {:induction false} OneSpelling(token: Token, colon: string)
    ensures Spellings([token], colon) == Spelling(token, colon)
  {
    assert [token][1..] == [];
    assert Spelling(token, colon) + "" == Spelling(token, colon);
  }

  // FastWriter's text is the value's tokens with nothing between them.
  lemma {:induction false} CompactIsItsTokens(v: Value, colon: string)
    ensures Compact(v, colon) == Spellings(Tokens(v), colon)
    decreases v, 1
  {
    hide CompactItems, CompactMembers, ItemTokens, MemberTokens, Spellings;
    match v
    case Arr(items) =>
      CompactItemsAreTokens(items, true, colon);
      SpellingsAppend([ArrayBegin], ItemTokens(items, true), colon);
      OneSpelling(ArrayBegin, colon);
    case Obj(members) =>
      CompactMembersAreTokens(members, true, colon);
      SpellingsAppend([ObjectBegin], MemberTokens(members, true), colon);
      OneSpelling(ObjectBegin, colon);
    case _ =>
      OneSpelling(ScalarToken(v), colon);
  }

  lemma {:induction false} CommaSpelling(first: bool, colon: string)
    ensures Spellings(CommaTokens(first), colon) == Comma(first)
  {
    if !first { OneSpelling(ArraySeparator, colon); }
  }

  lemma {:induction false} CompactItemsAreTokens(items: seq<Value>, first: bool, colon: string)
    ensures CompactItems(items, first, colon) == Spellings(ItemTokens(items, first), colon)
    decreases items, 0
  {
    hide Compact, Tokens, Spellings;
    if items == [] {
      OneSpelling(ArrayEnd, colon);
    } else {
      CompactIsItsTokens(items[0], colon);
      CompactItemsAreTokens(items[1..], false, colon);
      CommaSpelling(first, colon);
      var value, more := Tokens(items[0]), ItemTokens(items[1..], false);
      SpellingsAppend(value, more, colon);
      SpellingsAppend(CommaTokens(first), value + more, colon);
    }
  }

  lemma {:induction false} CompactMembersAreTokens(members: seq<Member>, first: bool, colon: string)
    ensures CompactMembers(members, first, colon) == Spellings(MemberTokens(members, first), colon)
    decreases members, 0
  {
    hide Compact, Tokens, Spellings, Quoted;
    if members == [] {
      OneSpelling(ObjectEnd, colon);
    } else {
      CompactIsItsTokens(members[0].value, colon);
      CompactMembersAreTokens(members[1..], false, colon);
      CommaSpelling(first, colon);
      var value, more := Tokens(members[0].value), MemberTokens(members[1..], false);
      var name := StringToken(Quoted(members[0].name));
      SpellingsAppend(value, more, colon);
      SpellingsAppend([name], [MemberSeparator], colon);
      OneSpelling(name, colon);
      OneSpelling(MemberSeparator, colon);
      var key := [name, MemberSeparator];
      assert [name] + [MemberSeparator] == key;
      SpellingsAppend(key, value + more, colon);
      SpellingsAppend(CommaTokens(first), key + (value + more), colon);
      var q, c, m := Spelling(name, colon), Compact(members[0].value, colon), Spellings(more, colon);
      assert (q + colon) + (c + m) == q + (colon + (c + m));
    }
  }
}
