// What every accepted document has in common, whatever its text, and the looseness of the
// grammar the reader accepts.
module JsonAccepted {
  import opened Options
  import opened JsonValue
  import opened JsonNumber
  import opened JsonSyntax
  import opened JsonFastWriter

  // ---- the key order is a strict total order, and Put keeps it ----

  lemma {:induction false} BeforeIsTransitive(a: string, b: string, c: string)
    requires Before(a, b) && Before(b, c)
    ensures Before(a, c)
  {
    if a != "" && a[0] == b[0] && b[0] == c[0] {
      BeforeIsTransitive(a[1..], b[1..], c[1..]);
    }
  }

  lemma {:induction false} BeforeIsTotal(a: string, b: string)
    ensures Before(a, b) || a == b || Before(b, a)
  {
    if a != "" && b != "" && a[0] == b[0] {
      BeforeIsTotal(a[1..], b[1..]);
      assert a == [a[0]] + a[1..] && b == [b[0]] + b[1..];
    }
  }

  lemma {:induction false} PutKeepsOrder(members: seq<Member>, name: string, value: Value)
    requires KeysAscend(members)
    ensures KeysAscend(Put(members, name, value))
  {
    if members != [] {
      var first, rest := members[0], members[1..];
      BeforeIsTotal(first.name, name);
      if Before(first.name, name) {
        PutKeepsOrder(rest, name, value);
        var after := Put(rest, name, value);
        forall j | 0 <= j < |after| ensures Before(first.name, after[j].name) {
          PutKeysAre(rest, name, value, after[j]);
        }
      } else if first.name != name {
        forall j | 0 <= j < |members| ensures Before(name, members[j].name) {
          if j > 0 {
            BeforeIsTransitive(name, first.name, members[j].name);
          }
        }
      }
    }
  }

  // What putting means: the name has the value afterwards, and every other member is as it was.
  lemma {:induction false} PutMeans(members: seq<Member>, name: string, value: Value, m: Member)
    requires KeysAscend(members)
    ensures m in Put(members, name, value) <==> m == Member(name, value) || (m in members && m.name != name)
  {
    if members != [] {
      var first, rest := members[0], members[1..];
      BeforeIsTotal(first.name, name);
      BeforeIsIrreflexive(name);
      assert members == [first] + rest;
      if Before(first.name, name) {
        PutMeans(rest, name, value, m);
      } else {
        forall j | 0 < j < |members| ensures Before(name, members[j].name) {
          if first.name != name { BeforeIsTransitive(name, first.name, members[j].name); }
        }
      }
    }
  }

  // ---- accepted values ----

  // Objects are maps, numbers are in normal form and in range.
  predicate Proper(v: Value)
    decreases v, 1
  {
    match v
    case Int(i) => MIN_LARGEST_INT <= i <= MAX_INT
    case UInt(u) => MAX_INT < u <= MAX_LARGEST_UINT
    case Arr(items) => forall x :: x in items ==> Proper(x)
    case Obj(members) => KeysAscend(members) && forall m :: m in members ==> Proper(m.value)
    case _ => true
  }

  ghost predicate ItemsFit(items: seq<Value>, room: int) {
    forall x :: x in items ==> Proper(x) && Depth(x) <= room
  }

  ghost predicate MembersFit(members: seq<Member>, room: int) {
    KeysAscend(members) && forall m :: m in members ==> Proper(m.value) && Depth(m.value) <= room
  }

  lemma {:induction false} ItemsDepthIsBounded(items: seq<Value>, room: nat)
    requires forall x :: x in items ==> Depth(x) <= room
    ensures ItemsDepth(items) <= room
  {
    if items != [] {
      ItemsDepthIsBounded(items[1..], room);
    }
  }

  lemma {:induction false} MembersDepthIsBounded(members: seq<Member>, room: nat)
    requires forall m :: m in members ==> Depth(m.value) <= room
    ensures MembersDepth(members) <= room
  {
    if members != [] {
      assert members[0] in members;
      MembersDepthIsBounded(members[1..], room);
    }
  }

  // Among proper values only those with a double are beyond what the round trips are about.
  lemma {:induction false} ProperWithoutDoubles(v: Value)
    requires Proper(v)
    ensures DoubleFree(v) <==> !HasDouble(v)
    decreases v
  {
    match v
    case Arr(items) =>
      forall x | x in items ensures DoubleFree(x) <==> !HasDouble(x) { ProperWithoutDoubles(x); }
    case Obj(members) =>
      forall m | m in members ensures DoubleFree(m.value) <==> !HasDouble(m.value) { ProperWithoutDoubles(m.value); }
    case _ =>
  }

  // Whatever the text, a value the reader accepts is proper and nests within the limit.
  lemma {:induction false} AcceptedIsProper(s: string, depth: nat, isDouble: string -> bool)
    requires depth <= STACK_LIMIT && ReadValue(s, depth, isDouble).Parsed?
    ensures var v := ReadValue(s, depth, isDouble).value; Proper(v) && Depth(v) <= STACK_LIMIT - depth
    decreases STACK_LIMIT - depth, |s|, 0
  {
    hide TokenAt, DecodeToken;
    var lexed := ReadPastComments(s);
    if lexed.token.ObjectBegin? {
      AcceptedMembersAreProper(lexed.rest, depth + 1, [], "", isDouble);
    } else if lexed.token.ArrayBegin? {
      var t := SkipSpaces(lexed.rest);
      if !(t != "" && t[0] == ']') {
        AcceptedItemsAreProper(t, depth + 1, [], isDouble);
      }
    }
  }

  lemma {:induction false} AcceptedItemsAreProper(s: string, depth: nat, items: seq<Value>, isDouble: string -> bool)
    requires depth <= STACK_LIMIT && ItemsFit(items, STACK_LIMIT - depth)
    requires ReadItems(s, depth, items, isDouble).Parsed?
    ensures var v := ReadItems(s, depth, items, isDouble).value; Proper(v) && Depth(v) <= STACK_LIMIT - depth + 1
    decreases STACK_LIMIT - depth, |s|, 1
  {
    hide TokenAt, ReadPastComments;
    AcceptedIsProper(s, depth, isDouble);
    var read := ReadValue(s, depth, isDouble);
    var lexed := ReadPastComments(read.rest);
    var more := items + [read.value];
    assert ItemsFit(more, STACK_LIMIT - depth);
    if lexed.token.ArrayEnd? {
      ItemsDepthIsBounded(more, STACK_LIMIT - depth);
    } else {
      AcceptedItemsAreProper(lexed.rest, depth, more, isDouble);
    }
  }

  lemma {:induction false} AcceptedMembersAreProper(s: string, depth: nat, members: seq<Member>, name: string,
        isDouble: string -> bool)
    requires depth <= STACK_LIMIT && MembersFit(members, STACK_LIMIT - depth)
    requires ReadMembers(s, depth, members, name, isDouble).Parsed?
    ensures var v := ReadMembers(s, depth, members, name,
          isDouble).value; Proper(v) && Depth(v) <= STACK_LIMIT - depth + 1
    decreases STACK_LIMIT - depth, |s|, 1
  {
    hide TokenAt, ReadPastComments, Put;
    var lexed := ReadPastComments(s);
    if lexed.token.ObjectEnd? {
      MembersDepthIsBounded(members, STACK_LIMIT - depth);
    } else {
      var key := DecodeToken(lexed.token.text).value;
      var colon := ReadToken(lexed.rest);
      var read := ReadValue(colon.rest, depth, isDouble);
      AcceptedIsProper(colon.rest, depth, isDouble);
      var more := Put(members, key, read.value);
      PutKeepsOrder(members, key, read.value);
      forall m | m in more ensures Proper(m.value) && Depth(m.value) <= STACK_LIMIT - depth {
        PutKeysAre(members, key, read.value, m);
      }
      AcceptedEndIsProper(read.rest, depth, more, key, isDouble);
    }
  }

  lemma {:induction false} AcceptedEndIsProper(s: string, depth: nat, members: seq<Member>, key: string,
        isDouble: string -> bool)
    requires depth <= STACK_LIMIT && MembersFit(members, STACK_LIMIT - depth)
    requires AfterMember(s, depth, members, key, isDouble).Parsed?
    ensures var v := AfterMember(s, depth, members, key,
          isDouble).value; Proper(v) && Depth(v) <= STACK_LIMIT - depth + 1
    decreases STACK_LIMIT - depth, |s|, 2
  {
    hide TokenAt, ReadPastComments, Put;
    var first := ReadToken(s);
    var comma := if first.token.Comment? then ReadPastComments(first.rest) else first;
    if comma.token.ObjectEnd? {
      MembersDepthIsBounded(members, STACK_LIMIT - depth);
    } else {
      AcceptedMembersAreProper(comma.rest, depth, members, key, isDouble);
    }
  }

  lemma {:induction false} ProperIsNormal(v: Value)
    requires Proper(v) && !HasDouble(v)
    ensures DoubleFree(v) && Normal(v) == v
    decreases v, 1
  {
    match v
    case Arr(items) => ProperItemsAreNormal(items);
    case Obj(members) => ProperMembersAreNormal(members);
    case _ =>
  }

  lemma {:induction false} ProperItemsAreNormal(items: seq<Value>)
    requires forall x :: x in items ==> Proper(x) && !HasDouble(x)
    ensures NormalItems(items) == items && forall x :: x in items ==> DoubleFree(x)
    decreases items, 0
  {
    if items != [] {
      ProperIsNormal(items[0]);
      ProperItemsAreNormal(items[1..]);
      assert forall x :: x in items <==> x == items[0] || x in items[1..];
    }
  }

  lemma {:induction false} ProperMembersAreNormal(members: seq<Member>)
    requires forall m :: m in members ==> Proper(m.value) && !HasDouble(m.value)
    ensures NormalMembers(members) == members && forall m :: m in members ==> DoubleFree(m.value)
    decreases members, 0
  {
    if members != [] {
      assert members[0] in members;
      ProperIsNormal(members[0].value);
      ProperMembersAreNormal(members[1..]);
      assert forall m :: m in members <==> m == members[0] || m in members[1..];
    }
  }

  // Whatever document was read, writing the value and reading that gives the value again,
  // with nothing left to normalise and the nesting limit out of reach.
  lemma {:induction false} RereadIsStable(document: string, colon: string, end: string, isDouble: string -> bool)
    requires Parse(document, isDouble).Parsed? && !HasDouble(Parse(document, isDouble).value)
    requires (colon == ":" || colon == ": ") && (end == "" || end == "\n")
    ensures var v := Parse(document, isDouble).value; Parse(Compact(v, colon) + end, isDouble) == Parsed(v, end)
  {
    var v := Parse(document, isDouble).value;
    AcceptedIsProper(document, 0, isDouble);
    ProperIsNormal(v);
    FastRoundTrip(v, colon, end, isDouble);
  }

  // ---- looseness ----

  lemma {:induction false} DigitsStart(n: nat)
    ensures Digits(n)[0] == '0' <==> n == 0
  {
    if n >= 10 { DigitsStart(n / 10); }
  }

  // A run of digits is what its value prints as, unless it is empty or starts with a spare zero.
  lemma {:induction false} DigitsOfNatOf(s: string)
    requires AllDigits(s) && s != "" && (|s| > 1 ==> s[0] != '0')
    ensures Digits(NatOf(s)) == s
    decreases |s|
  {
    var init, last := s[..|s| - 1], s[|s| - 1];
    assert init + [last] == s && DigitChar(DigitValue(last)) == last;
    if init != "" {
      DigitsOfNatOf(init);
      DigitsStart(NatOf(init));
    }
  }

  // Which texts the integer path takes beyond those an integer prints as: a run of digits with
  // leading zeros, a negative zero, and a minus without digits, which is read as zero.
  lemma {:induction false} LooseIntegers(token: string, isDouble: string -> bool)
    requires FitsInteger(token)
    ensures DecodeNumber(token, isDouble) == Some(NormalNumber(IntegerOf(token)))
    ensures Magnitude(token) == "" ==> IntegerOf(token) == 0
    ensures var m := Magnitude(token);
            IntText(IntegerOf(token)) == token <==> m != "" && (|m| > 1 ==> m[0] != '0') && token != "-0"
  {
    hide Digits, NatOf;
    var m := Magnitude(token);
    NatOfNothing();
    DigitsStart(NatOf(m));
    assert Digits(0) == "0" by { ZeroPrints(); }
    if m != "" && (|m| > 1 ==> m[0] != '0') {
      DigitsOfNatOf(m);
    }
    if Negative(token) {
      assert token == "-" + m;
      assert ("-" + Digits(NatOf(m)))[1..] == Digits(NatOf(m));
    }
  }

  lemma {:induction false} NatOfNothing()
    ensures NatOf("") == 0
  {}

  lemma {:induction false} ZeroPrints()
    ensures Digits(0) == "0"
  {}

  // After a member a comment makes up for the comma: whatever token comes next, unless it is the
  // closing brace, is passed over as if it were one, and reading goes on behind it.
  lemma {:induction false} CommentForComma(s: string, depth: nat, members: seq<Member>, name: string,
        isDouble: string -> bool)
    requires depth <= STACK_LIMIT && !ReadPastComments(s).token.ObjectEnd?
    ensures AfterMember(s, depth, members, name, isDouble) ==
            if ReadToken(s).token.Comment? || ReadPastComments(s).token.ArraySeparator? then
              ReadMembers(ReadPastComments(s).rest, depth, members, name, isDouble)
            else Failed
  {
    hide ReadToken, TokenAt;
    var first := ReadToken(s);
    assert ReadPastComments(s) == if first.token.Comment? then ReadPastComments(first.rest) else first;
  }

  // A comma before a closing brace, comments about it or not, is accepted exactly when the key
  // before it is empty: the test for an empty object looks at the last key read.
  lemma {:induction false} TrailingComma(s: string, depth: nat, members: seq<Member>, name: string,
        isDouble: string -> bool)
    requires depth <= STACK_LIMIT && ReadPastComments(s).token.ArraySeparator?
    requires ReadPastComments(ReadPastComments(s).rest).token.ObjectEnd?
    ensures AfterMember(s, depth, members, name, isDouble)
         == if name == "" then Parsed(Obj(members), ReadPastComments(ReadPastComments(s).rest).rest) else Failed
  {
    hide ReadToken, TokenAt;
    var first := ReadToken(s);
    assert ReadPastComments(s) == if first.token.Comment? then ReadPastComments(first.rest) else first;
  }
}
