// A value as a sequence of tokens, and what the reader makes of any text that spells it.
module JsonTokens {
  import opened Options
  import opened JsonValue
  import opened JsonNumber
  import opened JsonString
  import opened JsonSyntax

  function ScalarToken(v: Value): Token
    requires !v.Arr? && !v.Obj?
  {
    match v
    case Null => NullWord
    case Bool(b) => if b then True else False
    case Int(i) => NumberToken(IntText(i))
    case UInt(u) => NumberToken(IntText(u))
    case Real(text) => NumberToken(text)
    case Str(s) => StringToken(Quoted(s))
  }

  function Tokens(v: Value): seq<Token>
    decreases v, 1
  {
    match v
    case Arr(items) => [ArrayBegin] + ItemTokens(items, true)
    case Obj(members) => [ObjectBegin] + MemberTokens(members, true)
    case _ => [ScalarToken(v)]
  }

  // The items and the closing bracket.
  function ItemTokens(items: seq<Value>, first: bool): (r: seq<Token>)
    ensures r != []
    decreases items, 0
  {
    if items == [] then [ArrayEnd]
    else
      var comma := if first then [] else [ArraySeparator];
      comma + (Tokens(items[0]) + ItemTokens(items[1..], false))
  }

  function MemberTokens(members: seq<Member>, first: bool): (r: seq<Token>)
    ensures r != []
    decreases members, 0
  {
    if members == [] then [ObjectEnd]
    else
      var comma := if first then [] else [ArraySeparator];
      var key := [StringToken(Quoted(members[0].name)), MemberSeparator];
      comma + (key + (Tokens(members[0].value) + MemberTokens(members[1..], false)))
  }

  // Reads exactly the tokens `ts` off the front of `s`.
  function AfterTokens(s: string, ts: seq<Token>): Option<string>
    decreases |ts|
  {
    if ts == [] then Some(s)
    else
      var lexed := ReadToken(s);
      if lexed.token == ts[0] then AfterTokens(lexed.rest, ts[1..]) else None
  }

  lemma {:induction false} AfterTokensSplits(s: string, a: seq<Token>, b: seq<Token>)
    ensures AfterTokens(s, a + b)
         == match AfterTokens(s, a) case None => None case Some(rest) => AfterTokens(rest, b)
    decreases |a|
  {
    if a == [] {
      assert a + b == b;
    } else {
      assert (a + b)[1..] == a[1..] + b;
      AfterTokensSplits(ReadToken(s).rest, a[1..], b);
    }
  }

  // ---- what comes back ----

  function PutAll(before: seq<Member>, members: seq<Member>): seq<Member>
    decreases |members|
  {
    if members == [] then before
    else PutAll(Put(before, members[0].name, members[0].value), members[1..])
  }

  // The value the tokens of `v` read as. Members are put one by one, so `v` need not be a map.
  function ReadBack(v: Value): Value
    decreases v, 1
  {
    match v
    case Arr(items) => Arr(ReadBackItems(items))
    case Obj(members) => Obj(PutAll([], ReadBackMembers(members)))
    case _ => Normal(v)
  }

  function ReadBackItems(items: seq<Value>): seq<Value>
    decreases items, 0
  {
    if items == [] then [] else [ReadBack(items[0])] + ReadBackItems(items[1..])
  }

  function ReadBackMembers(members: seq<Member>): (r: seq<Member>)
    ensures |r| == |members| && forall k :: 0 <= k < |r| ==> r[k].name == members[k].name
    decreases members, 0
  {
    if members == [] then []
    else [Member(members[0].name, ReadBack(members[0].value))] + ReadBackMembers(members[1..])
  }

  // Trees whose numbers fit; the keys may come in any order.
  predicate Printable(v: Value)
    decreases v, 1
  {
    match v
    case Int(i) => MIN_LARGEST_INT <= i <= MAX_LARGEST_INT
    case UInt(u) => u <= MAX_LARGEST_UINT
    case Real(_) => false
    case Arr(items) => forall x :: x in items ==> Printable(x)
    case Obj(members) => forall m :: m in members ==> Printable(m.value)
    case _ => true
  }

  lemma {:induction false} DoubleFreeIsPrintable(v: Value)
    requires DoubleFree(v)
    ensures Printable(v)
  {
    match v
    case Arr(items) =>
      forall x | x in items ensures Printable(x) { DoubleFreeIsPrintable(x); }
    case Obj(members) =>
      forall m | m in members ensures Printable(m.value) { DoubleFreeIsPrintable(m.value); }
    case _ =>
  }

  // The outcome of reading a value that nests `deep` levels.
  function Within(v: Value, rest: string, depth: nat, deep: nat): Outcome {
    if depth + deep <= STACK_LIMIT then Parsed(v, rest) else TooDeep
  }

  lemma {:induction false} ScalarReads(v: Value, isDouble: string -> bool, rest: string)
    requires Printable(v) && !v.Arr? && !v.Obj?
    ensures ReadScalar(Lexed(ScalarToken(v), rest), isDouble) == Parsed(Normal(v), rest)
  {
    match v
    case Int(i) => IntTextDecodes(i);
    case UInt(u) => IntTextDecodes(u);
    case Str(s) =>
      assert Quoted(s)[1..|Quoted(s)| - 1] == EscapeAll(s);
      UnescapeInvertsEscape(s);
    case _ =>
  }

  // Whatever the spacing, text that spells a value's tokens reads as that value, or runs
  // into the nesting limit, which depends on the value alone.
  lemma {:induction false} TokensRead(v: Value, s: string, depth: nat, isDouble: string -> bool)
    requires Printable(v) && depth <= STACK_LIMIT && AfterTokens(s, Tokens(v)).Some?
    ensures ReadValue(s, depth, isDouble) == Within(ReadBack(v), AfterTokens(s, Tokens(v)).value, depth, Depth(v))
    decreases v, 1
  {
    hide ReadValue, ReadArray, ReadMembers, ReadScalar, AfterTokens, ReadToken, Tokens, ItemTokens, MemberTokens;
    var lexed := ReadToken(s);
    FirstTokenRead(v, s, depth, isDouble);
    if depth == STACK_LIMIT {
    } else if v.Arr? {
      ArrayTokensRead(v.items, lexed.rest, depth + 1, isDouble);
    } else if v.Obj? {
      ObjectTokensRead(v.members, lexed.rest, depth + 1, isDouble);
    } else {
      ScalarReads(v, isDouble, lexed.rest);
    }
  }

  // The first token decides which method goes on, and what is left for it.
  lemma {:induction false} FirstTokenRead(v: Value, s: string, depth: nat, isDouble: string -> bool)
    requires depth <= STACK_LIMIT && AfterTokens(s, Tokens(v)).Some?
    ensures var lexed := ReadToken(s);
            if depth == STACK_LIMIT then ReadValue(s, depth, isDouble) == TooDeep
            else if v.Arr? then
              ReadValue(s, depth, isDouble) == ReadArray(lexed.rest, depth + 1, isDouble)
              && AfterTokens(s, Tokens(v)) == AfterTokens(lexed.rest, ItemTokens(v.items, true))
            else if v.Obj? then
              ReadValue(s, depth, isDouble) == ReadMembers(lexed.rest, depth + 1, [], "", isDouble)
              && AfterTokens(s, Tokens(v)) == AfterTokens(lexed.rest, MemberTokens(v.members, true))
            else
              ReadValue(s, depth, isDouble) == ReadScalar(Lexed(ScalarToken(v), lexed.rest), isDouble)
              && AfterTokens(s, Tokens(v)) == Some(lexed.rest)
  {
    var lexed := ReadToken(s);
    var ts := Tokens(v)[1..];
    assert lexed.token == Tokens(v)[0] && AfterTokens(s, Tokens(v)) == AfterTokens(lexed.rest, ts);
    assert ReadPastComments(s) == lexed;
    if v.Arr? {
      assert ts == ItemTokens(v.items, true);
    } else if v.Obj? {
      assert ts == MemberTokens(v.members, true);
    } else {
      assert ts == [];
    }
  }

  lemma {:induction false} ArrayTokensRead(items: seq<Value>, s: string, depth: nat, isDouble: string -> bool)
    requires depth <= STACK_LIMIT && (forall x :: x in items ==> Printable(x))
    requires AfterTokens(s, ItemTokens(items, true)).Some?
    ensures ReadArray(s, depth, isDouble)
         == Within(Arr(ReadBackItems(items)), AfterTokens(s, ItemTokens(items, true)).value, depth, ItemsDepth(items))
    decreases items, 2
  {
    if items == [] {
      assert [ArrayEnd][1..] == [];
      assert SkipSpaces(s)[0] == ']';
    } else {
      assert ItemTokens(items, true) == Tokens(items[0]) + ItemTokens(items[1..], false);
      FirstOfTokens(items[0], s, ItemTokens(items[1..], false));
      AfterTokensIgnoresSpaces(s, ItemTokens(items, true));
      ItemTokensRead(items, SkipSpaces(s), depth, [], isDouble);
      assert [] + ReadBackItems(items) == ReadBackItems(items);
    }
  }

  lemma {:induction false} ObjectTokensRead(members: seq<Member>, s: string, depth: nat, isDouble: string -> bool)
    requires depth <= STACK_LIMIT && (forall m :: m in members ==> Printable(m.value))
    requires AfterTokens(s, MemberTokens(members, true)).Some?
    ensures ReadMembers(s, depth, [], "", isDouble)
         == Within(Obj(PutAll([], ReadBackMembers(members))), AfterTokens(s, MemberTokens(members, true)).value,
               depth, MembersDepth(members))
    decreases members, 2
  {
    if members == [] {
      assert [ObjectEnd][1..] == [];
    } else {
      MemberTokensRead(members, s, depth, [], "", isDouble);
    }
  }

  // An item never begins with the closing bracket.
  lemma {:induction false} FirstOfTokens(v: Value, s: string, more: seq<Token>)
    requires AfterTokens(s, Tokens(v) + more).Some?
    ensures SkipSpaces(s) != "" && SkipSpaces(s)[0] != ']'
  {
    assert (Tokens(v) + more)[0] == Tokens(v)[0] != ArrayEnd;
    assert ReadToken(s).token == Tokens(v)[0];
  }

  lemma {:induction false} AfterTokensIgnoresSpaces(s: string, ts: seq<Token>)
    requires ts != []
    ensures AfterTokens(SkipSpaces(s), ts) == AfterTokens(s, ts)
  {
  }

  lemma {:induction false} ItemTokensRead(items: seq<Value>, s: string, depth: nat, before: seq<Value>,
        isDouble: string -> bool)
    requires items != [] && depth <= STACK_LIMIT && (forall x :: x in items ==> Printable(x))
    requires AfterTokens(s, ItemTokens(items, true)).Some?
    ensures ReadItems(s, depth, before, isDouble)
         == Within(Arr(before + ReadBackItems(items)), AfterTokens(s, ItemTokens(items, true)).value, depth,
               ItemsDepth(items))
    decreases items, 1
  {
    hide ReadValue, Tokens, TokenAt, SkipSpaces, ReadBack, Depth;
    var more := ItemTokens(items[1..], false);
    assert ItemTokens(items, true) == Tokens(items[0]) + more;
    AfterTokensSplits(s, Tokens(items[0]), more);
    TokensRead(items[0], s, depth, isDouble);
    if depth + Depth(items[0]) <= STACK_LIMIT {
      ItemEnds(items, AfterTokens(s, Tokens(items[0])).value, depth, before, isDouble);
    }
  }

  // readArray's step after an item
  function AfterItem(s: string, depth: nat, items: seq<Value>, isDouble: string -> bool): Outcome
    requires depth <= STACK_LIMIT
  {
    var lexed := ReadPastComments(s);
    if lexed.token.ArrayEnd? then Parsed(Arr(items), lexed.rest)
    else if lexed.token.ArraySeparator? then ReadItems(lexed.rest, depth, items, isDouble)
    else Failed
  }

  // From the end of the first item to the end of the array.
  lemma {:induction false} ItemEnds(items: seq<Value>, rest: string, depth: nat, before: seq<Value>,
        isDouble: string -> bool)
    requires items != [] && depth <= STACK_LIMIT && (forall x :: x in items ==> Printable(x))
    requires depth + Depth(items[0]) <= STACK_LIMIT
    requires AfterTokens(rest, ItemTokens(items[1..], false)).Some?
    ensures AfterItem(rest, depth, before + [ReadBack(items[0])], isDouble)
         == Within(Arr(before + ReadBackItems(items)), AfterTokens(rest, ItemTokens(items[1..], false)).value, depth,
               ItemsDepth(items))
    decreases items, 0
  {
    hide ReadValue, Tokens, TokenAt, SkipSpaces, ReadBack, Depth;
    var more, v := ItemTokens(items[1..], false), ReadBack(items[0]);
    assert before + ReadBackItems(items) == before + [v] + ReadBackItems(items[1..]);
    if |items| > 1 {
      assert more[0] == ArraySeparator && more[1..] == ItemTokens(items[1..], true);
      ItemTokensRead(items[1..], ReadToken(rest).rest, depth, before + [v], isDouble);
    } else {
      assert more == [ArrayEnd] && more[1..] == [];
      assert ItemsDepth(items) == Depth(items[0]);
      assert before + ReadBackItems(items) == before + [v];
    }
  }

  lemma {:induction false} KeyReads(name: string)
    ensures DecodeToken(Quoted(name)) == Some(name)
  {
    assert Quoted(name)[1..|Quoted(name)| - 1] == EscapeAll(name);
    UnescapeInvertsEscape(name);
  }

  lemma {:induction false} MemberTokensRead(members: seq<Member>, s: string, depth: nat, before: seq<Member>,
        name: string, isDouble: string -> bool)
    requires members != [] && depth <= STACK_LIMIT && (forall m :: m in members ==> Printable(m.value))
    requires AfterTokens(s, MemberTokens(members, true)).Some?
    ensures ReadMembers(s, depth, before, name, isDouble)
         == Within(Obj(PutAll(before, ReadBackMembers(members))), AfterTokens(s, MemberTokens(members, true)).value,
               depth, MembersDepth(members))
    decreases members, 1
  {
    hide ReadValue, Tokens, TokenAt, SkipSpaces, ReadBack, Depth, Put, DecodeToken;
    var key, value := members[0].name, members[0].value;
    var more := MemberTokens(members[1..], false);
    var ts := MemberTokens(members, true);
    assert ts[0] == StringToken(Quoted(key)) && ts[1..][0] == MemberSeparator && ts[1..][1..] == Tokens(value) + more;
    KeyReads(key);
    var start := ReadToken(ReadToken(s).rest).rest;
    AfterTokensSplits(start, Tokens(value), more);
    TokensRead(value, start, depth, isDouble);
    if depth + Depth(value) <= STACK_LIMIT {
      var rest := AfterTokens(start, Tokens(value)).value;
      MemberEnds(members, rest, depth, Put(before, key, ReadBack(value)), key, isDouble);
    }
  }

  // From the end of the first member's value to the end of the object.
  lemma {:induction false} MemberEnds(members: seq<Member>, rest: string, depth: nat, after: seq<Member>, key: string,
        isDouble: string -> bool)
    requires members != [] && depth <= STACK_LIMIT && (forall m :: m in members ==> Printable(m.value))
    requires depth + Depth(members[0].value) <= STACK_LIMIT
    requires AfterTokens(rest, MemberTokens(members[1..], false)).Some?
    ensures AfterMember(rest, depth, after, key, isDouble)
         == Within(Obj(PutAll(after, ReadBackMembers(members)[1..])), AfterTokens(rest, MemberTokens(members[1..],
               false)).value, depth, MembersDepth(members))
    decreases members, 0
  {
    hide ReadValue, Tokens, TokenAt, SkipSpaces, ReadBack, Depth, Put, Quoted;
    var more := MemberTokens(members[1..], false);
    assert ReadBackMembers(members)[1..] == ReadBackMembers(members[1..]);
    if |members| > 1 {
      assert more[0] == ArraySeparator && more[1..] == MemberTokens(members[1..], true);
      MemberTokensRead(members[1..], ReadToken(rest).rest, depth, after, key, isDouble);
    } else {
      assert more == [ObjectEnd] && more[1..] == [];
      assert MembersDepth(members) == Depth(members[0].value);
    }
  }

  // For a value that is a map at every level, what comes back is the value itself with its
  // integers normalised.
  lemma {:induction false} ReadBackIsNormal(v: Value)
    requires DoubleFree(v)
    ensures ReadBack(v) == Normal(v)
    decreases v, 1
  {
    match v
    case Arr(items) => ReadBackItemsAreNormal(items);
    case Obj(members) =>
      ReadBackMembersAreNormal(members);
      PutAllKeepsOrder([], NormalMembers(members));
      assert [] + NormalMembers(members) == NormalMembers(members);
    case _ =>
  }

  lemma {:induction false} ReadBackItemsAreNormal(items: seq<Value>)
    requires forall x :: x in items ==> DoubleFree(x)
    ensures ReadBackItems(items) == NormalItems(items)
    decreases items, 0
  {
    if items != [] {
      ReadBackIsNormal(items[0]);
      ReadBackItemsAreNormal(items[1..]);
    }
  }

  lemma {:induction false} ReadBackMembersAreNormal(members: seq<Member>)
    requires forall m :: m in members ==> DoubleFree(m.value)
    ensures ReadBackMembers(members) == NormalMembers(members)
    decreases members, 0
  {
    if members != [] {
      assert members[0] in members;
      ReadBackIsNormal(members[0].value);
      ReadBackMembersAreNormal(members[1..]);
    }
  }

  lemma {:induction false} PutAllKeepsOrder(before: seq<Member>, members: seq<Member>)
    requires KeysAscend(before + members)
    ensures PutAll(before, members) == before + members
    decreases |members|
  {
    if members == [] {
      assert before + members == before;
    } else {
      var all := before + members;
      forall m | m in before ensures Before(m.name, members[0].name) {
        var i :| 0 <= i < |before| && before[i] == m;
        assert all[i] == m && all[|before|] == members[0];
      }
      PutAppendsALaterKey(before, members[0].name, members[0].value);
      assert before + [members[0]] + members[1..] == all;
      assert Member(members[0].name, members[0].value) == members[0];
      PutAllKeepsOrder(before + [members[0]], members[1..]);
    }
  }
}
