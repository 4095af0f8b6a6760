// StyledWriter's layout against the reader: what its text means, and when that is the value.
module JsonStyledMeaning {
  import opened Options
  import opened JsonValue
  import opened JsonString
  import opened JsonSyntax
  import opened JsonTokens
  import opened JsonFastWriter
  import opened JsonStyledWriter

  // Keys go through c_str(), so each one is cut at its first NUL.
  function CutKeys(v: Value): Value
    decreases v, 1
  {
    match v
    case Arr(items) => Arr(CutItems(items))
    case Obj(members) => Obj(CutMembers(members))
    case _ => v
  }

  function CutItems(items: seq<Value>): (r: seq<Value>)
    ensures |r| == |items|
    decreases items, 0
  {
    if items == [] then [] else [CutKeys(items[0])] + CutItems(items[1..])
  }

  function CutMembers(members: seq<Member>): (r: seq<Member>)
    ensures |r| == |members|
    decreases members, 0
  {
    if members == [] then []
    else [Member(UpToNul(members[0].name), CutKeys(members[0].value))] + CutMembers(members[1..])
  }

  lemma {:induction false} CutIsPrintable(v: Value)
    requires Printable(v)
    ensures Printable(CutKeys(v)) && Depth(CutKeys(v)) == Depth(v)
    decreases v, 1
  {
    match v
    case Arr(items) => CutItemsArePrintable(items);
    case Obj(members) => CutMembersArePrintable(members);
    case _ =>
  }

  lemma {:induction false} CutItemsArePrintable(items: seq<Value>)
    requires forall x :: x in items ==> Printable(x)
    ensures forall x :: x in CutItems(items) ==> Printable(x)
    ensures ItemsDepth(CutItems(items)) == ItemsDepth(items)
    decreases items, 0
  {
    if items != [] {
      CutIsPrintable(items[0]);
      CutItemsArePrintable(items[1..]);
    }
  }

  lemma {:induction false} CutMembersArePrintable(members: seq<Member>)
    requires forall m :: m in members ==> Printable(m.value)
    ensures forall m :: m in CutMembers(members) ==> Printable(m.value)
    ensures MembersDepth(CutMembers(members)) == MembersDepth(members)
    decreases members, 0
  {
    if members != [] {
      assert members[0] in members;
      CutIsPrintable(members[0].value);
      CutMembersArePrintable(members[1..]);
    }
  }

  // writeIndent only adds spaces and line breaks.
  lemma {:induction false} IndentAddsSpaces(doc: string, indent: string) returns (spaces: string)
    requires AllSpaces(indent)
    ensures AllSpaces(spaces) && Indented(doc, indent) == doc + spaces
  {
    if doc == "" || doc[|doc| - 1] == '\n' {
      spaces := indent;
    } else if doc[|doc| - 1] == ' ' {
      spaces := "";
    } else {
      spaces := "\n" + indent;
      assert doc + "\n" + indent == doc + spaces;
    }
  }

  lemma {:induction false} FlatSpells(v: Value, tail: string)
    requires Printable(v) && Flat(v) && EndsNumber(tail)
    ensures AfterTokens(FlatText(v) + tail, Tokens(CutKeys(v))) == Some(tail)
  {
    hide AfterTokens, ReadToken;
    if v.Arr? {
      ClosingSpells(']', tail);
      MarkSpells("", '[', "]" + tail, [ArrayEnd]);
      assert FlatText(v) + tail == "" + (['['] + ("]" + tail));
    } else if v.Obj? {
      ClosingSpells('}', tail);
      MarkSpells("", '{', "}" + tail, [ObjectEnd]);
      assert FlatText(v) + tail == "" + (['{'] + ("}" + tail));
    } else {
      CompactSpells(v, ":", tail);
    }
  }

  lemma {:induction false} SpacesEndNumber(spaces: string, c: char, tail: string)
    requires AllSpaces(spaces) && EndsNumber([c])
    ensures EndsNumber(spaces + ([c] + tail))
  {
    if spaces != "" {
      assert spaces[0] in spaces;
    }
  }

  // An opening mark after spaces, a body, and a closing mark after spaces.
  lemma {:induction false} FrameSpells(before: string, open: char, body: string, after: string, close: char,
        tail: string, ts: seq<Token>)
    requires AllSpaces(before) && open in "[{" && AfterTokens(body + (after + ([close] + tail)), ts) == Some(tail)
    ensures AfterTokens(((before + [open]) + (body + (after + [close]))) + tail, [Mark(open)] + ts) == Some(tail)
  {
    hide AfterTokens, ReadToken;
    MarkSpells(before, open, body + (after + ([close] + tail)), ts);
    assert ((before + [open]) + (body + (after + [close]))) + tail
        == before + ([open] + (body + (after + ([close] + tail))));
  }

  lemma {:induction false} FrameText(doc: string, before: string, open: string, body: string, after: string,
        close: string)
    ensures ((((doc + before) + open) + body) + after) + close == doc + ((before + open) + (body + (after + close)))
  {
  }

  lemma {:induction false} ClosedBySpells(spaces: string, c: char, tail: string)
    requires AllSpaces(spaces) && (c == ']' || c == '}')
    ensures AfterTokens(spaces + ([c] + tail), [Mark(c)]) == Some(tail) && EndsNumber(spaces + ([c] + tail))
  {
    MarkSpells(spaces, c, tail, []);
    SpacesEndNumber(spaces, c, tail);
    assert [Mark(c)] + [] == [Mark(c)];
  }

  // A comma and the entries after it.
  lemma {:induction false} NextSpells(last: string, close: string, ts: seq<Token>)
    ensures AfterTokens(("," + last) + close, [ArraySeparator] + ts) == AfterTokens(last + close, ts)
    ensures EndsNumber(("," + last) + close)
  {
    MarkSpells("", ',', last + close, ts);
    assert "" + ([','] + (last + close)) == ("," + last) + close;
  }

  // A value's text between the spaces before it and the text after it.
  lemma {:induction false} EntrySpells(spaces: string, value: string, v: Value, more: string, close: string,
        rest: seq<Token>, tail: string)
    requires AllSpaces(spaces) && rest != []
    requires AfterTokens(value + (more + close), Tokens(v)) == Some(more + close)
    requires AfterTokens(more + close, rest) == Some(tail)
    ensures AfterTokens((spaces + (value + more)) + close, Tokens(v) + rest) == Some(tail)
  {
    hide AfterTokens, ReadToken;
    ValueThenSpells(value, v, more + close, rest, tail);
    AfterTokensSkipsSpaces(spaces, value + (more + close), Tokens(v) + rest);
    assert (spaces + (value + more)) + close == spaces + (value + (more + close));
  }

  // The same for a member: its key comes first.
  lemma {:induction false} MemberSpells(spaces: string, name: string, value: string, v: Value, more: string,
        close: string, rest: seq<Token>, tail: string)
    requires AllSpaces(spaces) && rest != []
    requires AfterTokens(value + (more + close), Tokens(v)) == Some(more + close)
    requires AfterTokens(more + close, rest) == Some(tail)
    ensures AfterTokens(((spaces + (Quoted(name) + " : ")) + (value + more)) + close,
                        [StringToken(Quoted(name)), MemberSeparator] + (Tokens(v) + rest)) == Some(tail)
  {
    ValueThenSpells(value, v, more + close, rest, tail);
    KeySpells(name, " : ", value + (more + close), Tokens(v) + rest);
    AfterTokensSkipsSpaces(spaces, Quoted(name) + (" : " + (value + (more + close))),
                           [StringToken(Quoted(name)), MemberSeparator] + (Tokens(v) + rest));
    KeyText(spaces, Quoted(name), " : ", value, more, close);
  }

  lemma {:induction false} KeyText(spaces: string, name: string, colon: string, value: string, more: string,
        close: string)
    ensures ((spaces + (name + colon)) + (value + more)) + close == spaces + (name + (colon + (value + (more + close))))
  {
  }

  lemma {:induction false} EntryText(doc: string, spaces: string, value: string, last: string)
    ensures (((doc + spaces) + value) + ",") + last == doc + (spaces + (value + ("," + last)))
    ensures (doc + spaces) + value == doc + (spaces + (value + ""))
  {
    assert value + "" == value;
  }

  lemma {:induction false} CutItemTokens(items: seq<Value>)
    requires items != []
    ensures ItemTokens(CutItems(items), true) == Tokens(CutKeys(items[0])) + ItemTokens(CutItems(items[1..]), false)
    ensures |items| == 1 ==> ItemTokens(CutItems(items[1..]), false) == [ArrayEnd]
    ensures |items| > 1 ==>
              ItemTokens(CutItems(items[1..]), false) == [ArraySeparator] + ItemTokens(CutItems(items[1..]), true)
  {
    hide CutKeys, Tokens;
    var cut := CutItems(items);
    assert cut[0] == CutKeys(items[0]) && cut[1..] == CutItems(items[1..]);
    FirstItemTokens(cut, true);
    if |items| > 1 {
      FirstItemTokens(cut[1..], false);
      FirstItemTokens(cut[1..], true);
    }
  }

  lemma {:induction false} FirstItemTokens(items: seq<Value>, first: bool)
    requires items != []
    ensures ItemTokens(items, first) == CommaTokens(first) + (Tokens(items[0]) + ItemTokens(items[1..], false))
    ensures first ==> ItemTokens(items, first) == Tokens(items[0]) + ItemTokens(items[1..], false)
  {
    hide Tokens;
  }

  lemma {:induction false} CutMemberTokens(members: seq<Member>)
    requires members != []
    ensures MemberTokens(CutMembers(members), true)
         == [StringToken(Quoted(UpToNul(members[0].name))), MemberSeparator]
            + (Tokens(CutKeys(members[0].value)) + MemberTokens(CutMembers(members[1..]), false))
    ensures |members| == 1 ==> MemberTokens(CutMembers(members[1..]), false) == [ObjectEnd]
    ensures |members| > 1 ==>
              MemberTokens(CutMembers(members[1..]), false)
              == [ArraySeparator] + MemberTokens(CutMembers(members[1..]), true)
  {
    hide CutKeys, Quoted, UpToNul, Tokens;
    var cut := CutMembers(members);
    assert cut[0] == Member(UpToNul(members[0].name),
          CutKeys(members[0].value)) && cut[1..] == CutMembers(members[1..]);
    FirstMemberTokens(cut, true);
    if |members| > 1 {
      FirstMemberTokens(cut[1..], false);
      FirstMemberTokens(cut[1..], true);
    }
  }

  lemma {:induction false} FirstMemberTokens(members: seq<Member>, first: bool)
    requires members != []
    ensures MemberTokens(members, first)
         == CommaTokens(first) + ([StringToken(Quoted(members[0].name)), MemberSeparator]
            + (Tokens(members[0].value) + MemberTokens(members[1..], false)))
    ensures first ==> MemberTokens(members, first) == [StringToken(Quoted(members[0].name)),
          MemberSeparator] + (Tokens(members[0].value) + MemberTokens(members[1..], false))
  {
    hide Quoted, Tokens;
  }

  // The text a value adds to the document spells the value's tokens, keys cut at NUL,
  // whatever stood in the document and however deep the indentation.
  lemma {:induction false} StyledSpells(doc: string, indent: string, v: Value, tail: string) returns (text: string)
    requires Printable(v) && AllSpaces(indent) && EndsNumber(tail)
    ensures Styled(doc, indent, v) == doc + text
    ensures AfterTokens(text + tail, Tokens(CutKeys(v))) == Some(tail)
    decreases v, 3
  {
    hide AfterTokens, StyledItems, StyledMembers, OneLine, ItemTokens, MemberTokens, CutItems, CutMembers, Indented,
          EndsNumber;
    if Flat(v) {
      text := FlatText(v);
      FlatSpells(v, tail);
    } else if v.Obj? {
      var before := IndentAddsSpaces(doc, indent);
      var start := (doc + before) + "{";
      var inner := StyledMembers(start, indent + INDENT, v.members);
      var after := IndentAddsSpaces(inner, indent);
      var body := StyledMembersSpell(start, indent + INDENT, v.members, after, tail);
      text := (before + ['{']) + (body + (after + ['}']));
      FrameText(doc, before, "{", body, after, "}");
      FrameSpells(before, '{', body, after, '}', tail, MemberTokens(CutMembers(v.members), true));
    } else if Multiline(v.items) {
      var before := IndentAddsSpaces(doc, indent);
      var start := (doc + before) + "[";
      var inner := StyledItems(start, indent + INDENT, v.items);
      var after := IndentAddsSpaces(inner, indent);
      var body := StyledItemsSpell(start, indent + INDENT, v.items, after, tail);
      text := (before + ['[']) + (body + (after + [']']));
      FrameText(doc, before, "[", body, after, "]");
      FrameSpells(before, '[', body, after, ']', tail, ItemTokens(CutItems(v.items), true));
    } else {
      text := "[ " + OneLine(v.items, true);
      OneLineArraySpells(v.items, tail);
      assert doc + "[ " + OneLine(v.items, true) == doc + text;
    }
  }

  lemma {:induction false} OneLineArraySpells(items: seq<Value>, tail: string)
    requires items != [] && forall x :: x in items ==> Printable(x) && Flat(x)
    ensures AfterTokens(("[ " + OneLine(items, true)) + tail, [ArrayBegin] + ItemTokens(CutItems(items),
          true)) == Some(tail)
  {
    hide AfterTokens, ReadToken, OneLine, CutItems, ItemTokens;
    var line := OneLine(items, true) + tail;
    OneLineSpells(items, true, tail);
    AfterTokensSkipsSpaces(" ", line, ItemTokens(CutItems(items), true));
    MarkSpells("", '[', " " + line, ItemTokens(CutItems(items), true));
    assert ("[ " + OneLine(items, true)) + tail == "" + (['['] + (" " + line));
  }

  // Items up to the closing bracket, which follows after `after`.
  lemma {:induction false} StyledItemsSpell(doc: string, indent: string, items: seq<Value>, after: string, tail: string)
        returns (text: string)
    requires items != [] && (forall x :: x in items ==> Printable(x))
    requires AllSpaces(indent) && AllSpaces(after)
    ensures StyledItems(doc, indent, items) == doc + text
    ensures AfterTokens(text + (after + ([']'] + tail)), ItemTokens(CutItems(items), true)) == Some(tail)
    decreases items, 1
  {
    var close := after + ([']'] + tail);
    var spaces := IndentAddsSpaces(doc, indent);
    var more := "";
    ClosedBySpells(after, ']', tail);
    CutItemTokens(items);
    if |items| > 1 {
      var next := Styled(doc + spaces, indent, items[0]) + ",";
      var last := StyledItemsSpell(next, indent, items[1..], after, tail);
      more := "," + last;
      NextSpells(last, close, ItemTokens(CutItems(items[1..]), true));
      var value := StyledSpells(doc + spaces, indent, items[0], more + close);
      EntryText(doc, spaces, value, last);
      text := spaces + (value + more);
      EntrySpells(spaces, value, CutKeys(items[0]), more, close, ItemTokens(CutItems(items[1..]), false), tail);
    } else {
      assert more + close == close;
      var value := StyledSpells(doc + spaces, indent, items[0], more + close);
      EntryText(doc, spaces, value, "");
      text := spaces + (value + more);
      EntrySpells(spaces, value, CutKeys(items[0]), more, close, [ArrayEnd], tail);
    }
  }

  lemma {:induction false} StyledMembersSpell(doc: string, indent: string, members: seq<Member>, after: string,
        tail: string) returns (text: string)
    requires members != [] && (forall m :: m in members ==> Printable(m.value))
    requires AllSpaces(indent) && AllSpaces(after)
    ensures StyledMembers(doc, indent, members) == doc + text
    ensures AfterTokens(text + (after + (['}'] + tail)), MemberTokens(CutMembers(members), true)) == Some(tail)
    decreases members, 1
  {
    var close := after + (['}'] + tail);
    var spaces := IndentAddsSpaces(doc, indent);
    var name, v := UpToNul(members[0].name), members[0].value;
    var lead := spaces + (Quoted(name) + " : ");
    var start := doc + lead;
    assert (doc + spaces) + Quoted(name) + " : " == start;
    assert members[0] in members;
    var more := "";
    ClosedBySpells(after, '}', tail);
    CutMemberTokens(members);
    if |members| > 1 {
      var next := Styled(start, indent, v) + ",";
      var last := StyledMembersSpell(next, indent, members[1..], after, tail);
      more := "," + last;
      NextSpells(last, close, MemberTokens(CutMembers(members[1..]), true));
      var value := StyledSpells(start, indent, v, more + close);
      EntryText(doc, lead, value, last);
      text := lead + (value + more);
      MemberSpells(spaces, name, value, CutKeys(v), more, close, MemberTokens(CutMembers(members[1..]), false), tail);
    } else {
      assert more + close == close;
      var value := StyledSpells(start, indent, v, more + close);
      EntryText(doc, lead, value, "");
      text := lead + (value + more);
      MemberSpells(spaces, name, value, CutKeys(v), more, close, [ObjectEnd], tail);
    }
  }

  lemma {:induction false} OneLineSpells(items: seq<Value>, first: bool, tail: string)
    requires (forall x :: x in items ==> Printable(x) && Flat(x)) && (first ==> items != [])
    ensures AfterTokens(OneLine(items, first) + tail, ItemTokens(CutItems(items), first)) == Some(tail)
    ensures first || EndsNumber(OneLine(items, first) + tail)
    decreases |items|
  {
    hide AfterTokens, ReadToken, Tokens, CutKeys;
    if items == [] {
      ClosedBySpells(" ", ']', tail);
      assert OneLine(items, first) + tail == " " + ([']'] + tail);
    } else {
      var text, v, more := FlatText(items[0]), CutKeys(items[0]), OneLine(items[1..], false) + tail;
      var rest := ItemTokens(CutItems(items[1..]), false);
      OneLineSpells(items[1..], false, tail);
      FlatSpells(items[0], more);
      ValueThenSpells(text, v, more, rest, tail);
      assert CutItems(items)[1..] == CutItems(items[1..]);
      SeparatedSpells(first, text + more, Tokens(v) + rest);
      Extend(if first then "" else ", ", text, OneLine(items[1..], false), tail);
    }
  }

  // The ", " between items on one line.
  lemma {:induction false} SeparatedSpells(first: bool, s: string, ts: seq<Token>)
    requires ts != []
    ensures AfterTokens((if first then "" else ", ") + s, CommaTokens(first) + ts) == AfterTokens(s, ts)
  {
    if first {
      assert "" + s == s && [] + ts == ts;
    } else {
      AfterTokensSkipsSpaces(" ", s, ts);
      MarkSpells("", ',', " " + s, ts);
      assert "" + ([','] + (" " + s)) == ", " + s;
    }
  }

  // What StyledWriter's text reads as, for every printable tree.
  lemma {:induction false} StyledReads(v: Value, isDouble: string -> bool)
    requires Printable(v)
    ensures Parse(Styled("", "", v) + "\n", isDouble)
         == if Depth(v) <= STACK_LIMIT then Parsed(ReadBack(CutKeys(v)), "\n") else TooDeep
  {
    var text := StyledSpells("", "", v, "\n");
    assert "" + text == text;
    CutIsPrintable(v);
    TokensRead(CutKeys(v), text + "\n", 0, isDouble);
  }

  // ---- when the layout keeps the meaning ----

  predicate NulFreeKeys(v: Value)
    decreases v, 1
  {
    match v
    case Arr(items) => forall x :: x in items ==> NulFreeKeys(x)
    case Obj(members) => forall m :: m in members ==> '\0' !in m.name && NulFreeKeys(m.value)
    case _ => true
  }

  lemma {:induction false} NulFreeKeysAreWhole(v: Value)
    requires NulFreeKeys(v)
    ensures CutKeys(v) == v
    decreases v, 1
  {
    match v
    case Arr(items) => NulFreeItemsAreWhole(items);
    case Obj(members) => NulFreeMembersAreWhole(members);
    case _ =>
  }

  lemma {:induction false} NulFreeItemsAreWhole(items: seq<Value>)
    requires forall x :: x in items ==> NulFreeKeys(x)
    ensures CutItems(items) == items
    decreases items, 0
  {
    if items != [] {
      NulFreeKeysAreWhole(items[0]);
      NulFreeItemsAreWhole(items[1..]);
    }
  }

  lemma {:induction false} NulFreeMembersAreWhole(members: seq<Member>)
    requires forall m :: m in members ==> '\0' !in m.name && NulFreeKeys(m.value)
    ensures CutMembers(members) == members
    decreases members, 0
  {
    if members != [] {
      assert members[0] in members;
      NulFreeKeysAreWhole(members[0].value);
      NulFreeMembersAreWhole(members[1..]);
    }
  }

  // Nothing that StyledWriter wrote comes back with a NUL in a key.
  lemma {:induction false} CutKeysReadNulFree(v: Value)
    ensures NulFreeKeys(ReadBack(CutKeys(v)))
    decreases v, 1
  {
    match v
    case Arr(items) => CutItemsReadNulFree(items);
    case Obj(members) =>
      CutMembersReadNulFree(members);
      PutAllKeepsNulFree([], ReadBackMembers(CutMembers(members)));
    case _ =>
  }

  lemma {:induction false} CutItemsReadNulFree(items: seq<Value>)
    ensures forall x :: x in ReadBackItems(CutItems(items)) ==> NulFreeKeys(x)
    decreases items, 0
  {
    if items != [] {
      CutKeysReadNulFree(items[0]);
      CutItemsReadNulFree(items[1..]);
      assert CutItems(items)[1..] == CutItems(items[1..]);
    }
  }

  lemma {:induction false} CutMembersReadNulFree(members: seq<Member>)
    ensures forall m :: m in ReadBackMembers(CutMembers(members)) ==> '\0' !in m.name && NulFreeKeys(m.value)
    decreases members, 0
  {
    if members != [] {
      CutKeysReadNulFree(members[0].value);
      CutMembersReadNulFree(members[1..]);
      assert CutMembers(members)[1..] == CutMembers(members[1..]);
    }
  }

  lemma {:induction false} PutAllKeepsNulFree(before: seq<Member>, members: seq<Member>)
    requires forall m :: m in before ==> '\0' !in m.name && NulFreeKeys(m.value)
    requires forall m :: m in members ==> '\0' !in m.name && NulFreeKeys(m.value)
    ensures forall m :: m in PutAll(before, members) ==> '\0' !in m.name && NulFreeKeys(m.value)
    decreases |members|
  {
    if members != [] {
      var after := Put(before, members[0].name, members[0].value);
      assert members[0] in members;
      forall m | m in after ensures '\0' !in m.name && NulFreeKeys(m.value) {
        PutKeysAre(before, members[0].name, members[0].value, m);
      }
      PutAllKeepsNulFree(after, members[1..]);
    }
  }

  lemma {:induction false} NormalKeepsNuls(v: Value)
    ensures NulFreeKeys(Normal(v)) == NulFreeKeys(v)
    decreases v, 1
  {
    match v
    case Arr(items) =>
      NormalItemsKeepNuls(items);
    case Obj(members) =>
      NormalMembersKeepNuls(members);
    case _ =>
  }

  lemma {:induction false} NormalItemsKeepNuls(items: seq<Value>)
    ensures NulFreeKeys(Arr(NormalItems(items))) == NulFreeKeys(Arr(items))
    decreases items, 0
  {
    hide Normal;
    if items != [] {
      NormalKeepsNuls(items[0]);
      NormalItemsKeepNuls(items[1..]);
      var rest := NormalItems(items[1..]);
      assert forall x :: x in items <==> x == items[0] || x in items[1..];
      assert forall x :: x in NormalItems(items) <==> x == Normal(items[0]) || x in rest;
    }
  }

  lemma {:induction false} NormalMembersKeepNuls(members: seq<Member>)
    ensures NulFreeKeys(Obj(NormalMembers(members))) == NulFreeKeys(Obj(members))
    decreases members, 0
  {
    if members != [] {
      NormalKeepsNuls(members[0].value);
      NormalMembersKeepNuls(members[1..]);
      assert NormalMembers(members)[1..] == NormalMembers(members[1..]);
      NulFreeFromFirst(members);
      NulFreeFromFirst(NormalMembers(members));
    }
  }

  lemma {:induction false} NulFreeFromFirst(members: seq<Member>)
    requires members != []
    ensures NulFreeKeys(Obj(members))
       <==> '\0' !in members[0].name && NulFreeKeys(members[0].value) && NulFreeKeys(Obj(members[1..]))
  {
    assert members[0] in members;
    assert forall m :: m in members <==> m == members[0] || m in members[1..];
  }

  // The two writers' texts mean the same value exactly when no key contains a NUL.
  lemma {:induction false} StyledMeansTheSame(v: Value, isDouble: string -> bool)
    requires DoubleFree(v) && Depth(v) <= STACK_LIMIT
    ensures var fast := Parse(Compact(v, ":") + "\n", isDouble);
            var styled := Parse(Styled("", "", v) + "\n", isDouble);
            fast == Parsed(Normal(v), "\n") && styled.Parsed? && (styled == fast <==> NulFreeKeys(v))
  {
    DoubleFreeIsPrintable(v);
    FastRoundTrip(v, ":", "\n", isDouble);
    StyledReads(v, isDouble);
    if NulFreeKeys(v) {
      NulFreeKeysAreWhole(v);
      ReadBackIsNormal(v);
    } else {
      CutKeysReadNulFree(v);
      NormalKeepsNuls(v);
    }
  }

  // Writing with StyledWriter and reading the text.
  method WriteThenParseStyled(v: Value, isDouble: string -> bool) returns (status: JsonReader.Status, root: Value)
    requires DoubleFree(v) && NulFreeKeys(v)
    ensures status == if Depth(v) <= STACK_LIMIT then JsonReader.Succeeded else JsonReader.Thrown
    ensures status == JsonReader.Succeeded ==> root == Normal(v)
  {
    DoubleFreeIsPrintable(v);
    var writer := new StyledWriter();
    var text := writer.Write(v);
    StyledReads(v, isDouble);
    NulFreeKeysAreWhole(v);
    ReadBackIsNormal(v);
    var reader := new JsonReader.Reader(isDouble);
    status, root := reader.Parse(text);
  }
}
