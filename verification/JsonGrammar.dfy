// The grammar the reader of steam-shim/jsoncpp.cpp accepts, as trees of tokens, and that it accepts
// exactly that.
module JsonGrammar {
  import opened Options
  import opened Numbers
  import opened JsonValue
  import opened JsonSyntax
  import opened JsonTokens

  // ---- trees ----

  // A value with the number of comments before it.
  datatype Tree =
    | Leaf(skipped: nat, token: Token)
    | EmptyArray(skipped: nat)
    | ArrayTree(skipped: nat, items: Items)
    | ObjectTree(skipped: nat, rest: Rest)

  // Items up to the closing bracket, with the comments behind each.
  datatype Items =
    | LastItem(value: Tree, after: nat)
    | ItemThen(value: Tree, after: nat, more: Items)

  // An object from where a key or the closing brace is due.
  datatype Rest =
    | Close(before: nat)
    | Entry(before: nat, key: string, value: Tree, next: Next)

  // What follows a member: the closing brace, or one token in the comma's place and more.
  datatype Next =
    | Closed(after: nat)
    | Onwards(after: nat, token: Token, rest: Rest)

  function Skips(n: nat): seq<Token> {
    if n == 0 then [] else [Comment] + Skips(n - 1)
  }

  function TreeTokens(t: Tree): seq<Token> {
    match t
    case Leaf(n, token) => Skips(n) + [token]
    case EmptyArray(n) => Skips(n) + ([ArrayBegin] + [ArrayEnd])
    case ArrayTree(n, items) => Skips(n) + ([ArrayBegin] + ItemsTokens(items))
    case ObjectTree(n, rest) => Skips(n) + ([ObjectBegin] + RestTokens(rest))
  }

  function ItemsTokens(i: Items): seq<Token> {
    match i
    case LastItem(value, n) => TreeTokens(value) + (Skips(n) + [ArrayEnd])
    case ItemThen(value, n, more) => TreeTokens(value) + (Skips(n) + ([ArraySeparator] + ItemsTokens(more)))
  }

  function RestTokens(r: Rest): seq<Token> {
    match r
    case Close(n) => Skips(n) + [ObjectEnd]
    case Entry(n, key, value, next) =>
      Skips(n) + ([StringToken(key)] + ([MemberSeparator] + (TreeTokens(value) + NextTokens(next))))
  }

  function NextTokens(x: Next): seq<Token> {
    match x
    case Closed(n) => Skips(n) + [ObjectEnd]
    case Onwards(n, token, rest) => Skips(n) + ([token] + RestTokens(rest))
  }

  // ---- what a tree means ----

  type Doubles = string -> bool

  // The value of a tree that is in the grammar. A closing brace needs no member before it when the
  // last key was empty; a comma may be any other token when a comment stands before it.
  function TreeValue(t: Tree, isDouble: Doubles): Option<Value> {
    match t
    case Leaf(_, token) =>
      (match ReadScalar(Lexed(token, ""), isDouble)
       case Parsed(v, _) => Some(v)
       case _ => None)
    case EmptyArray(_) => Some(Arr([]))
    case ArrayTree(_, items) =>
      (match ItemValues(items, isDouble)
       case Some(vs) => Some(Arr(vs))
       case None => None)
    case ObjectTree(_, rest) => RestValue(rest, [], "", isDouble)
  }

  function ItemValues(i: Items, isDouble: Doubles): Option<seq<Value>> {
    match i
    case LastItem(value, _) =>
      (match TreeValue(value, isDouble)
       case Some(v) => Some([v])
       case None => None)
    case ItemThen(value, _, more) =>
      match (TreeValue(value, isDouble), ItemValues(more, isDouble))
      case (Some(v), Some(vs)) => Some([v] + vs)
      case _ => None
  }

  function RestValue(r: Rest, members: seq<Member>, name: string, isDouble: Doubles): Option<Value> {
    match r
    case Close(_) => if name == "" then Some(Obj(members)) else None
    case Entry(_, text, value, next) =>
      match (DecodeToken(text), TreeValue(value, isDouble))
      case (Some(key), Some(v)) => NextValue(next, Put(members, key, v), key, isDouble)
      case _ => None
  }

  // A token in the comma's place.
  predicate PassesForComma(after: nat, token: Token) {
    token == ArraySeparator || (after > 0 && token != Comment && token != ObjectEnd)
  }

  function NextValue(x: Next, members: seq<Member>, key: string, isDouble: Doubles): Option<Value> {
    match x
    case Closed(_) => Some(Obj(members))
    case Onwards(n, token, rest) =>
      if PassesForComma(n, token) then RestValue(rest, members, key, isDouble) else None
  }

  function TreeDepth(t: Tree): nat {
    match t
    case ArrayTree(_, items) => 1 + ItemsLevels(items)
    case ObjectTree(_, rest) => 1 + RestLevels(rest)
    case _ => 1
  }

  function ItemsLevels(i: Items): nat {
    match i
    case LastItem(value, _) => TreeDepth(value)
    case ItemThen(value, _, more) => Max(TreeDepth(value), ItemsLevels(more))
  }

  function RestLevels(r: Rest): nat {
    match r
    case Close(_) => 0
    case Entry(_, _, value, next) => Max(TreeDepth(value), NextLevels(next))
  }

  function NextLevels(x: Next): nat {
    match x
    case Closed(_) => 0
    case Onwards(_, _, rest) => RestLevels(rest)
  }

  // ---- comments ----

  lemma {:induction false} OneToken(s: string, token: Token, more: seq<Token>)
    ensures AfterTokens(s, [token] + more)
         == if ReadToken(s).token == token then AfterTokens(ReadToken(s).rest, more) else None
  {
    assert ([token] + more)[1..] == more;
  }

  // Past any number of comments stands the token that is due.
  lemma {:induction false} SkipsRead(s: string, n: nat, token: Token, more: seq<Token>)
    requires AfterTokens(s, Skips(n) + ([token] + more)).Some? && token != Comment
    ensures ReadPastComments(s).token == token
    ensures AfterTokens(s, Skips(n) + ([token] + more)) == AfterTokens(ReadPastComments(s).rest, more)
    ensures n == 0 <==> !ReadToken(s).token.Comment?
    ensures n == 0 ==> ReadToken(s) == ReadPastComments(s)
    ensures n > 0 ==> ReadPastComments(ReadToken(s).rest) == ReadPastComments(s)
    decreases n
  {
    hide ReadToken, AfterTokens;
    if n == 0 {
      assert Skips(n) + ([token] + more) == [token] + more;
      OneToken(s, token, more);
    } else {
      assert Skips(n) + ([token] + more) == [Comment] + (Skips(n - 1) + ([token] + more));
      OneToken(s, Comment, Skips(n - 1) + ([token] + more));
      SkipsRead(ReadToken(s).rest, n - 1, token, more);
    }
  }

  // How many comments were passed over.
  lemma {:induction false} SkipsPassed(s: string) returns (n: nat)
    ensures forall more :: AfterTokens(s, Skips(n) + ([ReadPastComments(s).token] + more))
                        == AfterTokens(ReadPastComments(s).rest, more)
    ensures n > 0 <==> ReadToken(s).token.Comment?
    decreases |s|
  {
    hide ReadToken, AfterTokens;
    var lexed, token := ReadToken(s), ReadPastComments(s).token;
    if lexed.token.Comment? {
      var m := SkipsPassed(lexed.rest);
      n := m + 1;
      forall more
        ensures AfterTokens(s, Skips(n) + ([token] + more)) == AfterTokens(ReadPastComments(s).rest, more)
      {
        assert Skips(n) + ([token] + more) == [Comment] + (Skips(m) + ([token] + more));
        OneToken(s, Comment, Skips(m) + ([token] + more));
      }
    } else {
      n := 0;
      forall more
        ensures AfterTokens(s, Skips(n) + ([token] + more)) == AfterTokens(ReadPastComments(s).rest, more)
      {
        assert Skips(n) + ([token] + more) == [token] + more;
        OneToken(s, token, more);
      }
    }
  }

  // ---- what is in the grammar is accepted ----

  // A tree within the limit is read as its value.
  lemma {:induction false} TreeIsRead(t: Tree, s: string, depth: nat, isDouble: Doubles)
    requires AfterTokens(s, TreeTokens(t)).Some? && TreeValue(t, isDouble).Some?
    requires depth + TreeDepth(t) <= STACK_LIMIT
    ensures ReadValue(s, depth, isDouble) == Parsed(TreeValue(t, isDouble).value, AfterTokens(s, TreeTokens(t)).value)
    decreases t, 1
  {
    hide ReadToken, ReadPastComments, AfterTokens, Skips, ReadArray, ReadMembers, ReadScalar;
    match t
    case Leaf(n, token) =>
      ScalarTokens(token, isDouble);
      assert [token] == [token] + [];
      SkipsRead(s, n, token, []);
      NoTokens(ReadPastComments(s).rest);
      ScalarAt(token, ReadPastComments(s).rest, isDouble);
    case EmptyArray(n) =>
      SkipsRead(s, n, ArrayBegin, [ArrayEnd]);
      EmptyIsRead(ReadPastComments(s).rest, depth + 1, isDouble);
    case ArrayTree(n, items) =>
      SkipsRead(s, n, ArrayBegin, ItemsTokens(items));
      ArrayIsRead(items, ReadPastComments(s).rest, depth + 1, isDouble);
    case ObjectTree(n, rest) =>
      SkipsRead(s, n, ObjectBegin, RestTokens(rest));
      RestIsRead(rest, ReadPastComments(s).rest, depth + 1, [], "", isDouble);
  }

  lemma {:induction false} NoTokens(s: string)
    ensures AfterTokens(s, []) == Some(s)
  {}

  // The tokens that are values on their own.
  lemma {:induction false} ScalarTokens(token: Token, isDouble: Doubles)
    requires ReadScalar(Lexed(token, ""), isDouble).Parsed?
    ensures token != Comment && token != ObjectBegin && token != ArrayBegin
  {}

  lemma {:induction false} ScalarAt(token: Token, rest: string, isDouble: Doubles)
    ensures var r := ReadScalar(Lexed(token, ""), isDouble);
            ReadScalar(Lexed(token, rest), isDouble) == if r.Parsed? then Parsed(r.value, rest) else Failed
  {
    hide DecodeToken;
  }

  lemma {:induction false} EmptyIsRead(s: string, depth: nat, isDouble: Doubles)
    requires depth <= STACK_LIMIT && AfterTokens(s, [ArrayEnd]).Some?
    ensures ReadArray(s, depth, isDouble) == Parsed(Arr([]), AfterTokens(s, [ArrayEnd]).value)
  {
    hide ReadItems;
    assert [ArrayEnd] == [ArrayEnd] + [];
    OneToken(s, ArrayEnd, []);
    NoTokens(ReadToken(s).rest);
    BracketFirst(s);
  }

  // readArray's look at the next character is a look at the next token.
  lemma {:induction false} BracketFirst(s: string)
    ensures var t := SkipSpaces(s);
            && (t != "" && t[0] == ']' <==> ReadToken(s).token == ArrayEnd)
            && (t != "" && t[0] == ']' ==> ReadToken(s).rest == t[1..])
  {
    hide StringRest, NumberRest, BlockCommentRest, LineCommentRest;
  }

  lemma {:induction false} SpacesAreSkipped(s: string)
    ensures ReadToken(SkipSpaces(s)) == ReadToken(s)
  {
    hide TokenAt;
  }

  lemma {:induction false} SameAfterSpaces(s: string, ts: seq<Token>)
    requires ts != []
    ensures AfterTokens(SkipSpaces(s), ts) == AfterTokens(s, ts)
  {
    hide ReadToken;
    SpacesAreSkipped(s);
  }

  lemma {:induction false} TreeBegins(t: Tree)
    ensures TreeTokens(t) != []
    ensures t.Leaf? && t.skipped == 0 ==> TreeTokens(t)[0] == t.token
    ensures !(t.Leaf? && t.skipped == 0) ==> TreeTokens(t)[0] != ArrayEnd
  {}

  lemma {:induction false} ItemsBegin(i: Items, isDouble: Doubles)
    requires ItemValues(i, isDouble).Some?
    ensures ItemsTokens(i) != [] && ItemsTokens(i)[0] != ArrayEnd
  {
    TreeBegins(i.value);
  }

  lemma {:induction false} FirstOfAll(s: string, ts: seq<Token>)
    requires ts != [] && AfterTokens(s, ts).Some?
    ensures ReadToken(s).token == ts[0]
  {}

  lemma {:induction false} ArrayIsRead(items: Items, s: string, depth: nat, isDouble: Doubles)
    requires AfterTokens(s, ItemsTokens(items)).Some? && ItemValues(items, isDouble).Some?
    requires depth + ItemsLevels(items) <= STACK_LIMIT
    ensures ReadArray(s, depth, isDouble)
         == Parsed(Arr(ItemValues(items, isDouble).value), AfterTokens(s, ItemsTokens(items)).value)
    decreases items, 2
  {
    hide ReadToken, AfterTokens, ReadItems, TreeTokens;
    ItemsBegin(items, isDouble);
    FirstOfAll(s, ItemsTokens(items));
    BracketFirst(s);
    SameAfterSpaces(s, ItemsTokens(items));
    ItemsAreRead(items, SkipSpaces(s), depth, [], isDouble);
    assert [] + ItemValues(items, isDouble).value == ItemValues(items, isDouble).value;
  }

  lemma {:induction false} ItemsAreRead(items: Items, s: string, depth: nat, before: seq<Value>, isDouble: Doubles)
    requires AfterTokens(s, ItemsTokens(items)).Some? && ItemValues(items, isDouble).Some?
    requires depth + ItemsLevels(items) <= STACK_LIMIT
    ensures ReadItems(s, depth, before, isDouble)
         == Parsed(Arr(before + ItemValues(items, isDouble).value), AfterTokens(s, ItemsTokens(items)).value)
    decreases items, 1
  {
    hide ReadToken, ReadPastComments, AfterTokens, Skips, ReadValue, TreeTokens, TreeValue;
    match items
    case LastItem(value, n) =>
      var v := TreeValue(value, isDouble).value;
      assert [ArrayEnd] == [ArrayEnd] + [];
      AfterTokensSplits(s, TreeTokens(value), Skips(n) + [ArrayEnd]);
      TreeIsRead(value, s, depth, isDouble);
      var rest := AfterTokens(s, TreeTokens(value)).value;
      SkipsRead(rest, n, ArrayEnd, []);
      NoTokens(ReadPastComments(rest).rest);
    case ItemThen(value, n, more) =>
      var v := TreeValue(value, isDouble).value;
      AfterTokensSplits(s, TreeTokens(value), Skips(n) + ([ArraySeparator] + ItemsTokens(more)));
      TreeIsRead(value, s, depth, isDouble);
      var rest := AfterTokens(s, TreeTokens(value)).value;
      SkipsRead(rest, n, ArraySeparator, ItemsTokens(more));
      ItemsAreRead(more, ReadPastComments(rest).rest, depth, before + [v], isDouble);
      var vs := ItemValues(more, isDouble).value;
      assert before + [v] + vs == before + ([v] + vs);
  }

  lemma {:induction false} RestIsRead(r: Rest, s: string, depth: nat, members: seq<Member>, name: string,
        isDouble: Doubles)
    requires AfterTokens(s, RestTokens(r)).Some? && RestValue(r, members, name, isDouble).Some?
    requires depth + RestLevels(r) <= STACK_LIMIT
    ensures ReadMembers(s, depth, members, name, isDouble)
         == Parsed(RestValue(r, members, name, isDouble).value, AfterTokens(s, RestTokens(r)).value)
    decreases r, 1
  {
    hide ReadToken, ReadPastComments, AfterTokens, Skips, ReadValue, TreeTokens, TreeValue, DecodeToken, Put,
      AfterMember, NextTokens, NextValue;
    match r
    case Close(n) =>
      assert [ObjectEnd] == [ObjectEnd] + [];
      SkipsRead(s, n, ObjectEnd, []);
      NoTokens(ReadPastComments(s).rest);
    case Entry(n, text, value, next) =>
      var tail := TreeTokens(value) + NextTokens(next);
      SkipsRead(s, n, StringToken(text), [MemberSeparator] + tail);
      var colon := ReadToken(ReadPastComments(s).rest);
      OneToken(ReadPastComments(s).rest, MemberSeparator, tail);
      AfterTokensSplits(colon.rest, TreeTokens(value), NextTokens(next));
      TreeIsRead(value, colon.rest, depth, isDouble);
      var key, v := DecodeToken(text).value, TreeValue(value, isDouble).value;
      NextIsRead(next, AfterTokens(colon.rest, TreeTokens(value)).value, depth, Put(members, key, v), key, isDouble);
  }

  lemma {:induction false} NextIsRead(x: Next, s: string, depth: nat, members: seq<Member>, key: string,
        isDouble: Doubles)
    requires AfterTokens(s, NextTokens(x)).Some? && NextValue(x, members, key, isDouble).Some?
    requires depth + NextLevels(x) <= STACK_LIMIT
    ensures AfterMember(s, depth, members, key, isDouble)
         == Parsed(NextValue(x, members, key, isDouble).value, AfterTokens(s, NextTokens(x)).value)
    decreases x, 1
  {
    hide ReadToken, ReadPastComments, AfterTokens, Skips, ReadMembers, RestTokens, RestValue;
    match x
    case Closed(n) =>
      assert [ObjectEnd] == [ObjectEnd] + [];
      SkipsRead(s, n, ObjectEnd, []);
      NoTokens(ReadPastComments(s).rest);
    case Onwards(n, token, rest) =>
      SkipsRead(s, n, token, RestTokens(rest));
      RestIsRead(rest, ReadPastComments(s).rest, depth, members, key, isDouble);
  }

  // ---- what is accepted is in the grammar ----

  // The tree stands at the front of the text, means the value and leaves the rest.
  predicate Spelling(t: Tree, s: string, depth: nat, v: Value, rest: string, isDouble: Doubles) {
    AfterTokens(s, TreeTokens(t)) == Some(rest) && TreeValue(t, isDouble) == Some(v)
    && depth + TreeDepth(t) <= STACK_LIMIT
  }

  lemma {:induction false} ReadIsTree(s: string, depth: nat, isDouble: Doubles) returns (t: Tree)
    requires depth <= STACK_LIMIT && ReadValue(s, depth, isDouble).Parsed?
    ensures var r := ReadValue(s, depth, isDouble); Spelling(t, s, depth, r.value, r.rest, isDouble)
    decreases STACK_LIMIT - depth, |s|, 0
  {
    hide ReadToken, ReadPastComments, AfterTokens, Skips, ReadScalar;
    var lexed := ReadPastComments(s);
    var n := SkipsPassed(s);
    if lexed.token.ObjectBegin? {
      var rest := ReadIsRest(lexed.rest, depth + 1, [], "", isDouble);
      t := ObjectTree(n, rest);
    } else if lexed.token.ArrayBegin? {
      t := ReadIsArray(lexed.rest, depth + 1, n, isDouble);
      SkipsBefore(s, n, lexed, t);
    } else {
      t := Leaf(n, lexed.token);
      assert [lexed.token] == [lexed.token] + [];
      NoTokens(lexed.rest);
      ScalarAt(lexed.token, lexed.rest, isDouble);
    }
  }

  lemma {:induction false} SkipsBefore(s: string, n: nat, lexed: Lexed, t: Tree)
    requires forall more :: AfterTokens(s, Skips(n) + ([lexed.token] + more)) == AfterTokens(lexed.rest, more)
    requires lexed.token == ArrayBegin && (t == EmptyArray(n) || (t.ArrayTree? && t.skipped == n))
    ensures AfterTokens(s, TreeTokens(t))
         == AfterTokens(lexed.rest, if t.EmptyArray? then [ArrayEnd] else ItemsTokens(t.items))
  {}

  lemma {:induction false} ReadIsArray(s: string, depth: nat, n: nat, isDouble: Doubles) returns (t: Tree)
    requires depth <= STACK_LIMIT && ReadArray(s, depth, isDouble).Parsed?
    ensures t == EmptyArray(n) || (t.ArrayTree? && t.skipped == n)
    ensures TreeValue(t, isDouble) == Some(ReadArray(s, depth, isDouble).value)
    ensures TreeDepth(t) <= STACK_LIMIT - depth + 1
    ensures AfterTokens(s, if t.EmptyArray? then [ArrayEnd] else ItemsTokens(t.items))
         == Some(ReadArray(s, depth, isDouble).rest)
    decreases STACK_LIMIT - depth, |s|, 2
  {
    hide ReadToken, AfterTokens, ReadItems, ItemsTokens;
    BracketFirst(s);
    var u := SkipSpaces(s);
    if u != "" && u[0] == ']' {
      t := EmptyArray(n);
      assert [ArrayEnd] == [ArrayEnd] + [];
      OneToken(s, ArrayEnd, []);
      NoTokens(u[1..]);
    } else {
      var items := ReadIsItems(u, depth, [], isDouble);
      ItemsAreTokens(items);
      SameAfterSpaces(s, ItemsTokens(items));
      t := ArrayTree(n, items);
      assert [] + ItemValues(items, isDouble).value == ItemValues(items, isDouble).value;
    }
  }

  lemma {:induction false} ItemsAreTokens(i: Items)
    ensures ItemsTokens(i) != []
  {}

  lemma {:induction false} ReadIsItems(s: string, depth: nat, before: seq<Value>, isDouble: Doubles)
      returns (items: Items)
    requires depth <= STACK_LIMIT && ReadItems(s, depth, before, isDouble).Parsed?
    ensures ItemValues(items, isDouble).Some? && ItemsLevels(items) <= STACK_LIMIT - depth
    ensures ReadItems(s, depth, before, isDouble).value == Arr(before + ItemValues(items, isDouble).value)
    ensures AfterTokens(s, ItemsTokens(items)) == Some(ReadItems(s, depth, before, isDouble).rest)
    decreases STACK_LIMIT - depth, |s|, 1
  {
    hide ReadToken, ReadPastComments, AfterTokens, Skips, ReadValue, TreeTokens, TreeValue, TreeDepth;
    var read := ReadValue(s, depth, isDouble);
    var t := ReadIsTree(s, depth, isDouble);
    var lexed := ReadPastComments(read.rest);
    var n := SkipsPassed(read.rest);
    if lexed.token.ArrayEnd? {
      items := LastItem(t, n);
      assert [ArrayEnd] == [ArrayEnd] + [];
      NoTokens(lexed.rest);
      AfterTokensSplits(s, TreeTokens(t), Skips(n) + [ArrayEnd]);
    } else {
      var more := ReadIsItems(lexed.rest, depth, before + [read.value], isDouble);
      items := ItemThen(t, n, more);
      AfterTokensSplits(s, TreeTokens(t), Skips(n) + ([ArraySeparator] + ItemsTokens(more)));
      var vs := ItemValues(more, isDouble).value;
      assert before + [read.value] + vs == before + ([read.value] + vs);
    }
  }

  lemma {:induction false} ReadIsRest(s: string, depth: nat, members: seq<Member>, name: string, isDouble: Doubles)
      returns (r: Rest)
    requires depth <= STACK_LIMIT && ReadMembers(s, depth, members, name, isDouble).Parsed?
    ensures RestValue(r, members, name, isDouble) == Some(ReadMembers(s, depth, members, name, isDouble).value)
    ensures RestLevels(r) <= STACK_LIMIT - depth
    ensures AfterTokens(s, RestTokens(r)) == Some(ReadMembers(s, depth, members, name, isDouble).rest)
    decreases STACK_LIMIT - depth, |s|, 1
  {
    hide ReadToken, ReadPastComments, AfterTokens, Skips, ReadValue, TreeTokens, TreeValue, TreeDepth, DecodeToken,
      Put, AfterMember, NextTokens, NextValue;
    var lexed := ReadPastComments(s);
    var n := SkipsPassed(s);
    if lexed.token.ObjectEnd? {
      r := Close(n);
      assert [ObjectEnd] == [ObjectEnd] + [];
      NoTokens(lexed.rest);
    } else {
      var key := DecodeToken(lexed.token.text).value;
      var colon := ReadToken(lexed.rest);
      var read := ReadValue(colon.rest, depth, isDouble);
      var t := ReadIsTree(colon.rest, depth, isDouble);
      var next := ReadIsNext(read.rest, depth, Put(members, key, read.value), key, isDouble);
      r := Entry(n, lexed.token.text, t, next);
      OneToken(lexed.rest, MemberSeparator, TreeTokens(t) + NextTokens(next));
      AfterTokensSplits(colon.rest, TreeTokens(t), NextTokens(next));
    }
  }

  lemma {:induction false} ReadIsNext(s: string, depth: nat, members: seq<Member>, key: string, isDouble: Doubles)
      returns (x: Next)
    requires depth <= STACK_LIMIT && AfterMember(s, depth, members, key, isDouble).Parsed?
    ensures NextValue(x, members, key, isDouble) == Some(AfterMember(s, depth, members, key, isDouble).value)
    ensures NextLevels(x) <= STACK_LIMIT - depth
    ensures AfterTokens(s, NextTokens(x)) == Some(AfterMember(s, depth, members, key, isDouble).rest)
    decreases STACK_LIMIT - depth, |s|, 2
  {
    hide ReadToken, AfterTokens, Skips, ReadMembers, RestTokens, RestValue;
    var lexed := ReadPastComments(s);
    var n := SkipsPassed(s);
    if lexed.token.ObjectEnd? {
      x := Closed(n);
      assert [ObjectEnd] == [ObjectEnd] + [];
      NoTokens(lexed.rest);
    } else {
      var rest := ReadIsRest(lexed.rest, depth, members, key, isDouble);
      x := Onwards(n, lexed.token, rest);
    }
  }

  // The reader accepts exactly the grammar: a value is read from a text, leaving a rest, if and
  // only if a tree within the nesting limit that means the value stands at the front of the text.
  lemma {:induction false} AcceptsExactlyTrees(s: string, depth: nat, isDouble: Doubles, v: Value, rest: string)
    requires depth <= STACK_LIMIT
    ensures ReadValue(s, depth, isDouble) == Parsed(v, rest) <==>
            exists t :: Spelling(t, s, depth, v, rest, isDouble)
  {
    hide ReadValue, TreeTokens, TreeValue, TreeDepth, AfterTokens;
    if ReadValue(s, depth, isDouble) == Parsed(v, rest) {
      var t := ReadIsTree(s, depth, isDouble);
    }
    forall t | Spelling(t, s, depth, v, rest, isDouble)
      ensures ReadValue(s, depth, isDouble) == Parsed(v, rest)
    {
      TreeIsRead(t, s, depth, isDouble);
    }
  }
}
