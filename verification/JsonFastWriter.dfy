// Json::FastWriter, and the round trip through the reader.
module JsonFastWriter {
  import opened Options
  import opened Chars
  import opened JsonValue
  import opened JsonNumber
  import opened JsonString
  import opened JsonSyntax
  import opened JsonTokens
  import JsonReader

  function ScalarText(v: Value): string
    requires !v.Arr? && !v.Obj?
  {
    match v
    case Null => "null"
    case Bool(b) => if b then "true" else "false"
    case Int(i) => IntText(i)
    case UInt(u) => IntText(u)
    case Real(token) => token
    case Str(s) => Quoted(s)
  }

  // `colon` is ":" or, for YAML, ": ".
  function Compact(v: Value, colon: string): string
    decreases v, 1
  {
    match v
    case Arr(items) => "[" + CompactItems(items, true, colon)
    case Obj(members) => "{" + CompactMembers(members, true, colon)
    case _ => ScalarText(v)
  }

  function Comma(first: bool): string { if first then "" else "," }

  // The items still to be written and the closing bracket.
  function CompactItems(items: seq<Value>, first: bool, colon: string): string
    decreases items, 0
  {
    if items == [] then "]"
    else Comma(first) + (Compact(items[0], colon) + CompactItems(items[1..], false, colon))
  }

  function CompactMembers(members: seq<Member>, first: bool, colon: string): string
    decreases members, 0
  {
    if members == [] then "}"
    else
      var member := Quoted(members[0].name) + (colon + (Compact(members[0].value,
            colon) + CompactMembers(members[1..], false, colon)));
      Comma(first) + member
  }

  lemma {:induction false} Regroup(a: string, b: string, c: string, d: string)
    ensures a + b + c + d == a + (b + (c + d))
  {
  }

  lemma {:induction false} MemberText(before: string, comma: string, name: string, colon: string, value: string,
        more: string)
    ensures before + comma + name + colon + value + more == before + (comma + (name + (colon + (value + more))))
  {
    assert colon + (value + more) == colon + value + more;
    assert name + (colon + value + more) == name + colon + value + more;
    assert comma + (name + colon + value + more) == comma + name + colon + value + more;
  }

  lemma {:induction false} ObjectText(value: Value, colon: string)
    requires value.Obj?
    ensures Compact(value, colon) == "{" + CompactMembers(value.members, true, colon)
  {}

  lemma {:induction false} MembersFrom(members: seq<Member>, index: nat, colon: string)
    requires index < |members|
    ensures CompactMembers(members[index..], index == 0, colon) ==
            var more := CompactMembers(members[index + 1..], false, colon);
            Comma(index == 0) + (Quoted(members[index].name) + (colon + (Compact(members[index].value, colon) + more)))
  {
    assert members[index..][1..] == members[index + 1..];
  }

  lemma {:induction false} NoMembers(members: seq<Member>, colon: string)
    ensures CompactMembers(members[|members|..], members == [], colon) == "}"
  {}

  lemma {:induction false} Extend(a: string, b: string, c: string, d: string)
    ensures (a + (b + c)) + d == a + (b + (c + d))
  {
  }

  // With dropNullPlaceholders_ off; printing doubles is not part of the model.
  class FastWriter {
    const yamlCompatible: bool
    const omitEndingLineFeed: bool
    var document: string

    constructor (yamlCompatible: bool, omitEndingLineFeed: bool)
      ensures this.yamlCompatible == yamlCompatible && this.omitEndingLineFeed == omitEndingLineFeed
    {
      this.yamlCompatible, this.omitEndingLineFeed := yamlCompatible, omitEndingLineFeed;
      document := "";
    }

    function Colon(): string { if yamlCompatible then ": " else ":" }

    method Write(root: Value) returns (text: string)
      requires Printable(root)
      modifies this
      ensures yamlCompatible ==> text == Compact(root, ": ") + if omitEndingLineFeed then "" else "\n"
      ensures !yamlCompatible ==> text == Compact(root, ":") + if omitEndingLineFeed then "" else "\n"
    {
      document := "";
      WriteValue(root);
      if !omitEndingLineFeed {
        document := document + "\n";
      }
      text := document;
    }

    method WriteValue(value: Value)
      requires Printable(value)
      modifies this
      ensures document == old(document) + Compact(value, Colon())
      decreases value
    {
      match value
      case Null => document := document + "null";
      case Int(i) =>
        var text := ValueToString(i);
        document := document + text;
      case UInt(u) =>
        var text := ValueToString(u);
        document := document + text;
      case Real(_) => assert false;
      case Str(s) =>
        var text := ValueToQuotedString(s);
        document := document + text;
      case Bool(b) => document := document + if b then "true" else "false";
      case Arr(items) => WriteItems(value);
      case Obj(members) => WriteMembers(value);
    }

    method WriteItems(value: Value)
      requires value.Arr? && Printable(value)
      modifies this
      ensures document == old(document) + Compact(value, Colon())
      decreases value, 0
    {
      var items := value.items;
      ghost var goal := document + Compact(value, Colon());
      document := document + "[";
      for index := 0 to |items|
        invariant document + CompactItems(items[index..], index == 0, Colon()) == goal
      {
        ghost var before, more := document, CompactItems(items[index + 1..], false, Colon());
        if index > 0 {
          document := document + ",";
        }
        WriteValue(items[index]);
        assert items[index..][1..] == items[index + 1..];
        Regroup(before, Comma(index == 0), Compact(items[index], Colon()), more);
      }
      document := document + "]";
    }

    method WriteMembers(value: Value)
      requires value.Obj? && Printable(value)
      modifies this
      ensures document == old(document) + Compact(value, Colon())
      decreases value, 0
    {
      hide Quoted, Compact, CompactMembers;
      var members := value.members;
      ghost var goal := document + Compact(value, Colon());
      ObjectText(value, Colon());
      assert document + ("{" + CompactMembers(members, true, Colon()))
          == document + "{" + CompactMembers(members, true, Colon());
      document := document + "{";
      assert members[0..] == members;
      for index := 0 to |members|
        invariant document + CompactMembers(members[index..], index == 0, Colon()) == goal
      {
        MembersFrom(members, index, Colon());
        ghost var before, more := document, CompactMembers(members[index + 1..], false, Colon());
        if index > 0 {
          document := document + ",";
        }
        assert document == before + Comma(index == 0);
        var name := ValueToQuotedString(members[index].name);
        document := document + name;
        document := document + Colon();
        WriteValue(members[index].value);
        MemberText(before, Comma(index == 0), name, Colon(), Compact(members[index].value, Colon()), more);
      }
      NoMembers(members, Colon());
      document := document + "}";
    }
  }

  // ---- what the text spells ----

  // Text that cannot be taken as more of a number.
  predicate EndsNumber(s: string) {
    s == "" || (!IsDigit(s[0]) && s[0] != '.' && s[0] != 'e' && s[0] != 'E')
  }

  lemma {:induction false} SkipDigitsOf(digits: string, tail: string)
    requires AllDigits(digits)
    ensures SkipDigits(digits + tail) == SkipDigits(tail)
  {
    if digits == "" {
      assert digits + tail == tail;
    } else {
      SkipDigitsOf(digits[1..], tail);
      assert (digits + tail)[1..] == digits[1..] + tail;
    }
  }

  lemma {:induction false} NumberRestOf(digits: string, tail: string)
    requires AllDigits(digits) && EndsNumber(tail)
    ensures NumberRest(digits + tail) == tail
  {
    SkipDigitsOf(digits, tail);
  }

  // A minus or a digit starts a number token, which runs to the end of the number.
  lemma {:induction false} NumberTokenAt(s: string, tail: string)
    requires |tail| < |s| && s[|s| - |tail|..] == tail
    requires (IsDigit(s[0]) || s[0] == '-') && NumberRest(s[1..]) == tail
    ensures ReadToken(s) == Lexed(NumberToken(s[..|s| - |tail|]), tail)
  {
  }

  lemma {:induction false} NumberTextReads(n: int, tail: string)
    requires EndsNumber(tail)
    ensures ReadToken(IntText(n) + tail) == Lexed(NumberToken(IntText(n)), tail)
  {
    var text := IntText(n);
    var s := text + tail;
    DigitsDenote(if n < 0 then -n else n);
    assert s[1..] == text[1..] + tail;
    NumberRestOf(text[1..], tail);
    assert s[..|s| - |tail|] == text;
    NumberTokenAt(s, tail);
  }

  lemma {:induction false} QuoteEnds(tail: string)
    ensures StringRest("\"" + tail) == Some(tail)
  {
    assert ("\"" + tail)[1..] == tail;
  }

  lemma {:induction false} StringRestOf(s: string, tail: string)
    ensures StringRest(EscapeAll(s) + "\"" + tail) == Some(tail)
  {
    hide Escape, StringRest;
    if s == "" {
      QuoteEnds(tail);
      assert EscapeAll(s) + "\"" + tail == "\"" + tail;
    } else {
      var rest := EscapeAll(s[1..]) + "\"" + tail;
      StringRestOf(s[1..], tail);
      StringRestPastOne(s[0], rest);
      assert EscapeAll(s) + "\"" + tail == Escape(s[0]) + rest;
    }
  }

  lemma {:induction false} StringRestPastOne(c: char, rest: string)
    ensures StringRest(Escape(c) + rest) == StringRest(rest)
  {
    var s := Escape(c) + rest;
    if !NeedsEscape(c) {
      assert s[1..] == rest;
    } else if |Escape(c)| == 2 {
      assert s[2..] == rest;
    } else {
      HexDigitsArePlain(c as nat);
      var hex := Hex4(c as nat);
      assert s[2..] == hex + rest;
      StringRestPastPlain(hex, rest);
    }
  }

  lemma {:induction false} HexDigitsArePlain(n: nat)
    requires n < 0x10000
    ensures forall c :: c in Hex4(n) ==> c != '"' && c != '\\'
  {
  }

  lemma {:induction false} StringRestPastPlain(plain: string, rest: string)
    requires forall c :: c in plain ==> c != '"' && c != '\\'
    ensures StringRest(plain + rest) == StringRest(rest)
  {
    if plain == "" {
      assert plain + rest == rest;
    } else {
      assert plain[0] in plain && (plain + rest)[1..] == plain[1..] + rest;
      assert forall c :: c in plain[1..] ==> c in plain;
      StringRestPastPlain(plain[1..], rest);
    }
  }

  lemma {:induction false} QuotedReads(s: string, tail: string)
    ensures ReadToken(Quoted(s) + tail) == Lexed(StringToken(Quoted(s)), tail)
  {
    var text := Quoted(s) + tail;
    assert text[1..] == EscapeAll(s) + "\"" + tail;
    StringRestOf(s, tail);
    assert Consumed(text, tail) == Quoted(s);
  }

  lemma {:induction false} ScalarTextReads(v: Value, tail: string)
    requires Printable(v) && !v.Arr? && !v.Obj? && EndsNumber(tail)
    ensures ReadToken(ScalarText(v) + tail) == Lexed(ScalarToken(v), tail)
  {
    hide NumberRest, SkipDigits, StringRest, IntText, Quoted, Consumed;
    var s := ScalarText(v) + tail;
    match v
    case Null => assert s[1..] == "ull" + tail;
    case Bool(b) => assert s[1..] == (if b then "rue" else "alse") + tail;
    case Int(i) => NumberTextReads(i, tail);
    case UInt(u) => NumberTextReads(u, tail);
    case Str(text) => QuotedReads(text, tail);
  }

  predicate AllSpaces(s: string) {
    forall c :: c in s ==> IsSpace(c)
  }

  lemma {:induction false} SkipSpacesOf(spaces: string, s: string)
    requires AllSpaces(spaces)
    ensures SkipSpaces(spaces + s) == SkipSpaces(s)
  {
    if spaces == "" {
      assert spaces + s == s;
    } else {
      assert spaces[0] in spaces && (spaces + s)[1..] == spaces[1..] + s;
      SkipSpacesOf(spaces[1..], s);
    }
  }

  // Spaces before text that begins with a token do not matter.
  lemma {:induction false} AfterTokensSkipsSpaces(spaces: string, s: string, ts: seq<Token>)
    requires AllSpaces(spaces) && ts != []
    ensures AfterTokens(spaces + s, ts) == AfterTokens(s, ts)
  {
    SkipSpacesOf(spaces, s);
  }

  function Mark(c: char): Token {
    if c == '[' then ArrayBegin else if c == ']' then ArrayEnd
    else if c == '{' then ObjectBegin else if c == '}' then ObjectEnd
    else if c == ',' then ArraySeparator else MemberSeparator
  }

  // Punctuation reads as its own token, wherever spaces put it.
  lemma {:induction false} MarkSpells(spaces: string, c: char, s: string, ts: seq<Token>)
    requires AllSpaces(spaces) && c in "[]{},:"
    ensures AfterTokens(spaces + ([c] + s), [Mark(c)] + ts) == AfterTokens(s, ts)
  {
    SkipSpacesOf(spaces, [c] + s);
    assert ([c] + s)[1..] == s && ([Mark(c)] + ts)[1..] == ts;
  }

  // One scalar or key token before more text.
  lemma {:induction false} OneTokenSpells(text: string, token: Token, s: string, ts: seq<Token>)
    requires ReadToken(text + s) == Lexed(token, s)
    ensures AfterTokens(text + s, [token] + ts) == AfterTokens(s, ts)
  {
    assert ([token] + ts)[1..] == ts;
  }

  // FastWriter's text spells the value's tokens and nothing else.
  lemma {:induction false} CompactSpells(v: Value, colon: string, tail: string)
    requires Printable(v) && EndsNumber(tail) && (colon == ":" || colon == ": ")
    ensures AfterTokens(Compact(v, colon) + tail, Tokens(v)) == Some(tail)
    decreases v, 1
  {
    hide ReadToken, CompactItems, CompactMembers, ItemTokens, MemberTokens;
    if v.Arr? {
      var text := CompactItems(v.items, true, colon) + tail;
      assert Compact(v, colon) + tail == "" + (['['] + text);
      MarkSpells("", '[', text, ItemTokens(v.items, true));
      CompactItemsSpell(v.items, true, colon, tail);
    } else if v.Obj? {
      var text := CompactMembers(v.members, true, colon) + tail;
      assert Compact(v, colon) + tail == "" + (['{'] + text);
      MarkSpells("", '{', text, MemberTokens(v.members, true));
      CompactMembersSpell(v.members, true, colon, tail);
    } else {
      ScalarTextReads(v, tail);
      OneTokenSpells(ScalarText(v), ScalarToken(v), tail, []);
    }
  }

  function CommaTokens(first: bool): seq<Token> { if first then [] else [ArraySeparator] }

  // A comma, unless this is the first element.
  lemma {:induction false} CommaSpells(first: bool, s: string, ts: seq<Token>)
    ensures AfterTokens(Comma(first) + s, CommaTokens(first) + ts) == AfterTokens(s, ts)
  {
    if first {
      assert Comma(first) + s == s && [] + ts == ts;
    } else {
      MarkSpells("", ',', s, ts);
      assert "" + ([','] + s) == Comma(first) + s;
    }
  }

  lemma {:induction false} ClosingSpells(c: char, tail: string)
    requires c == ']' || c == '}'
    ensures AfterTokens([c] + tail, [Mark(c)]) == Some(tail)
  {
    MarkSpells("", c, tail, []);
    assert "" + ([c] + tail) == [c] + tail && [Mark(c)] + [] == [Mark(c)];
  }

  // Text for a value, then text for what follows it.
  lemma {:induction false} ValueThenSpells(value: string, v: Value, more: string, ts: seq<Token>, tail: string)
    requires AfterTokens(value + more, Tokens(v)) == Some(more)
    requires AfterTokens(more, ts) == Some(tail)
    ensures AfterTokens(value + more, Tokens(v) + ts) == Some(tail)
  {
    AfterTokensSplits(value + more, Tokens(v), ts);
  }

  lemma {:induction false} CompactItemsSpell(items: seq<Value>, first: bool, colon: string, tail: string)
    requires (forall x :: x in items ==> Printable(x)) && (colon == ":" || colon == ": ")
    ensures AfterTokens(CompactItems(items, first, colon) + tail, ItemTokens(items, first)) == Some(tail)
    ensures first || EndsNumber(CompactItems(items, first, colon) + tail)
    decreases items, 0
  {
    if items == [] {
      ClosingSpells(']', tail);
    } else {
      var value, more := Compact(items[0], colon), CompactItems(items[1..], false, colon) + tail;
      var ts := ItemTokens(items[1..], false);
      CompactItemsSpell(items[1..], false, colon, tail);
      CompactSpells(items[0], colon, more);
      ValueThenSpells(value, items[0], more, ts, tail);
      CommaSpells(first, value + more, Tokens(items[0]) + ts);
      Extend(Comma(first), value, CompactItems(items[1..], false, colon), tail);
    }
  }

  // A key and its colon, before the text of the value.
  lemma {:induction false} KeySpells(name: string, colon: string, s: string, ts: seq<Token>)
    requires (colon == ":" || colon == ": " || colon == " : ") && ts != []
    ensures AfterTokens(Quoted(name) + (colon + s), [StringToken(Quoted(name)),
          MemberSeparator] + ts) == AfterTokens(s, ts)
  {
    QuotedReads(name, colon + s);
    OneTokenSpells(Quoted(name), StringToken(Quoted(name)), colon + s, [MemberSeparator] + ts);
    assert [StringToken(Quoted(name)), MemberSeparator] + ts == [StringToken(Quoted(name))] + ([MemberSeparator] + ts);
    ColonSpells(colon, s, ts);
  }

  lemma {:induction false} ColonSpells(colon: string, s: string, ts: seq<Token>)
    requires (colon == ":" || colon == ": " || colon == " : ") && ts != []
    ensures AfterTokens(colon + s, [MemberSeparator] + ts) == AfterTokens(s, ts)
  {
    hide AfterTokens, ReadToken;
    var lead := if colon == " : " then " " else "";
    var gap := if colon == ":" then "" else " ";
    assert colon + s == lead + ([':'] + (gap + s));
    MarkSpells(lead, ':', gap + s, ts);
    AfterTokensSkipsSpaces(gap, s, ts);
  }

  lemma {:induction false} CompactMembersSpell(members: seq<Member>, first: bool, colon: string, tail: string)
    requires (forall m :: m in members ==> Printable(m.value)) && (colon == ":" || colon == ": ")
    ensures AfterTokens(CompactMembers(members, first, colon) + tail, MemberTokens(members, first)) == Some(tail)
    ensures first || EndsNumber(CompactMembers(members, first, colon) + tail)
    decreases members, 0
  {
    hide AfterTokens, Tokens, Quoted, ReadToken, Compact;
    if members == [] {
      ClosingSpells('}', tail);
    } else {
      var name, v := members[0].name, members[0].value;
      var value, more := Compact(v, colon), CompactMembers(members[1..], false, colon) + tail;
      var ts := Tokens(v) + MemberTokens(members[1..], false);
      CompactMembersSpell(members[1..], false, colon, tail);
      CompactSpells(v, colon, more);
      ValueThenSpells(value, v, more, MemberTokens(members[1..], false), tail);
      KeySpells(name, colon, value + more, ts);
      CommaSpells(first, Quoted(name) + (colon + (value + more)), [StringToken(Quoted(name)), MemberSeparator] + ts);
      Extend(colon, value, CompactMembers(members[1..], false, colon), tail);
      Extend(Comma(first), Quoted(name), colon + (value + CompactMembers(members[1..], false, colon)), tail);
    }
  }

  // Reading back what FastWriter wrote: the same tree with its integers normalised, exactly
  // when it nests at most 1000 levels; deeper trees raise the nesting error.
  lemma {:induction false} FastRoundTrip(v: Value, colon: string, end: string, isDouble: string -> bool)
    requires DoubleFree(v) && (colon == ":" || colon == ": ") && (end == "" || end == "\n")
    ensures Parse(Compact(v, colon) + end, isDouble) == if Depth(v) <= STACK_LIMIT then Parsed(Normal(v),
          end) else TooDeep
  {
    DoubleFreeIsPrintable(v);
    CompactSpells(v, colon, end);
    TokensRead(v, Compact(v, colon) + end, 0, isDouble);
    ReadBackIsNormal(v);
  }

  // Writing and reading with the two classes.
  method WriteThenParse(v: Value, yaml: bool, omitEndingLineFeed: bool, isDouble: string -> bool)
      returns (status: JsonReader.Status, root: Value)
    requires DoubleFree(v)
    ensures status == if Depth(v) <= STACK_LIMIT then JsonReader.Succeeded else JsonReader.Thrown
    ensures status == JsonReader.Succeeded ==> root == Normal(v)
  {
    DoubleFreeIsPrintable(v);
    var writer := new FastWriter(yaml, omitEndingLineFeed);
    var text := writer.Write(v);
    var reader := new JsonReader.Reader(isDouble);
    FastRoundTrip(v, writer.Colon(), if omitEndingLineFeed then "" else "\n", isDouble);
    status, root := reader.Parse(text);
  }
}
